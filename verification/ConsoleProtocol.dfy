/** In-band console control frames: the resize encoder, and the copier that takes
    frames out of the user's byte stream.

    A source reader is the byte sequence it will still deliver; writes to the
    destination succeed. The resize callback may refuse a frame, which ends the
    copy as an error does in the source. */
module ConsoleProtocol {
  import opened Basics

  /** Octets as bits, for the checksum. */
  type Octets = seq<bv8>

  const FRAME_MARKER: bv8 := 0xff
  const FRAME_VERSION: bv8 := 1
  const FRAME_RESIZE: bv8 := 1
  const FRAME_LENGTH: nat := 11
  /** The six bytes every resize frame starts with: marker, 'M', 'A', 'C', version, kind. */
  const FRAME_HEADER: Octets := [FRAME_MARKER, 0x4d, 0x41, 0x43, FRAME_VERSION, FRAME_RESIZE]

  datatype Resize = Resize(rows: bv16, cols: bv16)

  // ---- Checksum -----------------------------------------------------------

  function Checksum(s: Octets): bv8 {
    if s == [] then 0 else Checksum(s[..|s| - 1]) ^ s[|s| - 1]
  }

  method FrameChecksum(frame: Octets) returns (checksum: bv8)
    ensures checksum == Checksum(frame)
  {
    checksum := 0;
    var i := 0;
    while i < |frame|
      invariant 0 <= i <= |frame|
      invariant checksum == Checksum(frame[..i])
    {
      assert frame[..i + 1][..i] == frame[..i];
      checksum := checksum ^ frame[i];
      i := i + 1;
    }
    assert frame[..i] == frame;
  }

  lemma {:induction false} XorReplace(c: bv8, x: bv8, y: bv8, z: bv8)
    ensures (c ^ x ^ y) ^ z == (c ^ z) ^ x ^ y
  {
  }

  lemma {:induction false} XorCancel(c: bv8, x: bv8, y: bv8)
    ensures (c ^ x) ^ x ^ y == c ^ y
    ensures c ^ x ^ y == c ==> x == y
  {
  }

  /** Replacing one byte moves the checksum by the exclusive-or of old and new. */
  lemma {:induction false} ChecksumUpdate(s: Octets, i: nat, b: bv8)
    requires i < |s|
    ensures Checksum(s[i := b]) == Checksum(s) ^ s[i] ^ b
    decreases |s|
  {
    var n := |s| - 1;
    if i == n {
      assert s[i := b][..n] == s[..n];
      XorCancel(Checksum(s[..n]), s[n], b);
    } else {
      ChecksumUpdate(s[..n], i, b);
      assert s[i := b][..n] == s[..n][i := b];
      XorReplace(Checksum(s[..n]), s[i], b, s[n]);
    }
  }

  // ---- Frames -------------------------------------------------------------

  function HighByte(w: bv16): bv8 { (w >> 8) as bv8 }
  function LowByte(w: bv16): bv8 { (w & 0xff) as bv8 }
  function Word(hi: bv8, lo: bv8): bv16 { ((hi as bv16) << 8) | (lo as bv16) }

  lemma {:induction false} WordSplit(w: bv16)
    ensures Word(HighByte(w), LowByte(w)) == w
  {
  }

  predicate ValidResizeFrame(frame: Octets) {
    && |frame| == FRAME_LENGTH
    && frame[..6] == FRAME_HEADER
    && frame[10] == Checksum(frame[..10])
    && Word(frame[6], frame[7]) != 0
    && Word(frame[8], frame[9]) != 0
  }

  function FrameResize(frame: Octets): Resize
    requires |frame| == FRAME_LENGTH
  {
    Resize(Word(frame[6], frame[7]), Word(frame[8], frame[9]))
  }

  predicate Encodable(rows: int, cols: int) {
    0 < rows <= 65535 && 0 < cols <= 65535
  }

  function Payload(rows: int, cols: int): Octets
    requires Encodable(rows, cols)
  {
    var r, c := rows as bv16, cols as bv16;
    FRAME_HEADER + [HighByte(r), LowByte(r), HighByte(c), LowByte(c)]
  }

  function Frame(rows: int, cols: int): Octets
    requires Encodable(rows, cols)
  {
    Payload(rows, cols) + [Checksum(Payload(rows, cols))]
  }

  lemma {:induction false} NonZeroWord(n: int)
    requires 0 < n <= 65535
    ensures n as bv16 != 0
  {
  }

  /** What the encoder emits the validator accepts, and it carries the sizes sent. */
  lemma {:induction false} FrameIsValid(rows: int, cols: int)
    requires Encodable(rows, cols)
    ensures ValidResizeFrame(Frame(rows, cols))
    ensures FrameResize(Frame(rows, cols)) == Resize(rows as bv16, cols as bv16)
    ensures Frame(rows, cols)[0] == FRAME_MARKER
  {
    WordSplit(rows as bv16);
    WordSplit(cols as bv16);
    NonZeroWord(rows);
    NonZeroWord(cols);
    var f := Frame(rows, cols);
    assert f[..10] == Payload(rows, cols);
    assert f[..6] == FRAME_HEADER;
  }

  /** The frame byte by byte: eleven bytes, of which the first six are fixed, the rows and then
      the columns follow with the high byte first, and the last makes all eleven cancel out. */
  lemma {:induction false} FrameWritten(rows: int, cols: int)
    requires 0 < rows <= 65535 && 0 < cols <= 65535
    ensures |Frame(rows, cols)| == 11
    ensures Frame(rows, cols)[..6] == [0xff, 0x4d, 0x41, 0x43, 0x01, 0x01]
    ensures BigEndian(Frame(rows, cols)[6], Frame(rows, cols)[7], rows as bv16)
    ensures BigEndian(Frame(rows, cols)[8], Frame(rows, cols)[9], cols as bv16)
    ensures Cancels(Frame(rows, cols))
  {
    BytesOf(rows as bv16);
    BytesOf(cols as bv16);
    var f := Frame(rows, cols);
    assert f[..6] == FRAME_HEADER;
    assert f[..10] == Payload(rows, cols);
    TenCancel(f);
  }

  ghost predicate BigEndian(high: bv8, low: bv8, w: bv16) { (high as bv16) * 256 + (low as bv16) == w }

  ghost predicate Cancels(f: Octets)
    requires |f| == 11
  {
    f[10] == f[0] ^ f[1] ^ f[2] ^ f[3] ^ f[4] ^ f[5] ^ f[6] ^ f[7] ^ f[8] ^ f[9]
  }

  lemma {:induction false} BytesOf(w: bv16)
    ensures BigEndian(HighByte(w), LowByte(w), w)
  {
  }

  lemma {:induction false} ChecksumTo(s: Octets, i: nat)
    requires i < |s|
    ensures Checksum(s[..i + 1]) == Checksum(s[..i]) ^ s[i]
  {
    assert s[..i + 1][..i] == s[..i];
  }

  lemma {:induction false} FiveChecksum(s: Octets)
    requires |s| >= 5
    ensures Checksum(s[..5]) == s[0] ^ s[1] ^ s[2] ^ s[3] ^ s[4]
  {
    ChecksumTo(s, 0);
    ChecksumTo(s, 1);
    ChecksumTo(s, 2);
    ChecksumTo(s, 3);
    ChecksumTo(s, 4);
    assert s[..0] == [];
  }

  lemma {:induction false} TenCancel(s: Octets)
    requires |s| == 11 && s[10] == Checksum(s[..10])
    ensures Cancels(s)
  {
    FiveChecksum(s);
    ChecksumTo(s, 5);
    ChecksumTo(s, 6);
    ChecksumTo(s, 7);
    ChecksumTo(s, 8);
    ChecksumTo(s, 9);
  }

  /** The validator accepts exactly what the encoder emits. */
  lemma {:induction false} ValidIffEncoded(f: Octets)
    ensures ValidResizeFrame(f) <==>
      exists rows, cols :: 0 < rows <= 65535 && 0 < cols <= 65535 && f == Frame(rows, cols)
  {
    if ValidResizeFrame(f) {
      var rows := SizeSent(f[6], f[7]);
      var cols := SizeSent(f[8], f[9]);
      assert f[..10] == f[..6] + [f[6], f[7], f[8], f[9]];
      assert f == f[..10] + [f[10]];
      assert f == Frame(rows, cols);
    }
    forall rows, cols | 0 < rows <= 65535 && 0 < cols <= 65535 ensures ValidResizeFrame(Frame(rows, cols)) {
      FrameIsValid(rows, cols);
    }
  }

  lemma {:induction false} WordBytes(high: bv8, low: bv8)
    ensures HighByte(Word(high, low)) == high && LowByte(Word(high, low)) == low
  {
  }

  lemma {:induction false} SizeOf(w: bv16)
    requires w != 0
    ensures 0 < w as int <= 65535
    ensures (w as int) as bv16 == w
  {
  }

  lemma {:induction false} SizeSent(high: bv8, low: bv8) returns (n: int)
    requires Word(high, low) != 0
    ensures 0 < n <= 65535 && HighByte(n as bv16) == high && LowByte(n as bv16) == low
  {
    var w := Word(high, low);
    WordBytes(high, low);
    n := w as int;
    SizeOf(w);
  }

  method EncodeResize(rows: int, cols: int) returns (frame: Option<Octets>)
    ensures frame.Some? <==> Encodable(rows, cols)
    ensures frame.Some? ==> ValidResizeFrame(frame.value)
    ensures frame.Some? ==> FrameResize(frame.value) == Resize(rows as bv16, cols as bv16)
    ensures frame.Some? ==> frame.value == Frame(rows, cols)
  {
    if rows <= 0 || rows > 65535 || cols <= 0 || cols > 65535 {
      return None;
    }
    FrameIsValid(rows, cols);
    var buffer := new bv8[11](_ => 0);
    buffer[0], buffer[1], buffer[2], buffer[3] := FRAME_MARKER, 0x4d, 0x41, 0x43;
    buffer[4], buffer[5] := FRAME_VERSION, FRAME_RESIZE;
    buffer[6], buffer[7] := HighByte(rows as bv16), LowByte(rows as bv16);
    buffer[8], buffer[9] := HighByte(cols as bv16), LowByte(cols as bv16);
    assert buffer[..10] == Payload(rows, cols);
    var sum := FrameChecksum(buffer[..10]);
    buffer[10] := sum;
    assert buffer[..] == Frame(rows, cols);
    return Some(buffer[..]);
  }

  /** The checksum detects every single-byte corruption of a valid frame. */
  lemma {:induction false} SingleByteCorruptionDetected(frame: Octets, i: nat, b: bv8)
    requires ValidResizeFrame(frame)
    requires i < FRAME_LENGTH && b != frame[i]
    ensures !ValidResizeFrame(frame[i := b])
  {
    var bad := frame[i := b];
    if i < 6 {
      assert bad[..6][i] == b && frame[..6][i] == frame[i];
    } else if i < 10 {
      ChecksumUpdate(frame[..10], i, b);
      assert bad[..10] == frame[..10][i := b];
      XorCancel(Checksum(frame[..10]), frame[i], b);
    } else {
      assert bad[..10] == frame[..10];
    }
  }

  // ---- The copier ---------------------------------------------------------

  /** One stretch of the input: bytes passed on, or a frame taken out. */
  datatype Segment = Kept(bytes: Octets) | Taken(frame: Octets)

  function Original(segments: seq<Segment>): Octets {
    if segments == [] then []
    else (match segments[0] case Kept(b) => b case Taken(f) => f) + Original(segments[1..])
  }

  function KeptBytes(segments: seq<Segment>): Octets {
    if segments == [] then []
    else (if segments[0].Kept? then segments[0].bytes else []) + KeptBytes(segments[1..])
  }

  predicate OnlyValidTaken(segments: seq<Segment>) {
    forall i :: 0 <= i < |segments| && segments[i].Taken? ==> ValidResizeFrame(segments[i].frame)
  }

  function TakenSizes(segments: seq<Segment>): seq<Resize>
    requires OnlyValidTaken(segments)
  {
    if segments == [] then []
    else (if segments[0].Taken? then [FrameResize(segments[0].frame)] else []) + TakenSizes(segments[1..])
  }

  /** What a copy did: the bytes written, the sizes reported, and whether it stopped
      because the callback refused the last of them. */
  datatype Copied = Copied(output: Octets, sizes: seq<Resize>, refused: bool)

  function Copy(input: Octets, accept: Resize -> bool): Copied
    decreases |input|
  {
    if input == [] then
      Copied([], [], false)
    else if input[0] != FRAME_MARKER then
      var rest := Copy(input[1..], accept);
      rest.(output := [input[0]] + rest.output)
    else if |input| < FRAME_LENGTH then
      Copied(input, [], false)
    else if ValidResizeFrame(input[..FRAME_LENGTH]) then
      var size := FrameResize(input[..FRAME_LENGTH]);
      if !accept(size) then Copied([], [size], true)
      else
        var rest := Copy(input[FRAME_LENGTH..], accept);
        rest.(sizes := [size] + rest.sizes)
    else
      var rest := Copy(input[FRAME_LENGTH..], accept);
      rest.(output := input[..FRAME_LENGTH] + rest.output)
  }

  /** `rest` preceded by what was already written and reported. */
  function After(output: Octets, sizes: seq<Resize>, rest: Copied): Copied {
    Copied(output + rest.output, sizes + rest.sizes, rest.refused)
  }

  lemma {:induction false} AfterAfter(o1: Octets, s1: seq<Resize>, o2: Octets, s2: seq<Resize>, rest: Copied)
    ensures After(o1, s1, After(o2, s2, rest)) == After(o1 + o2, s1 + s2, rest)
  {
    assert o1 + (o2 + rest.output) == (o1 + o2) + rest.output;
    assert s1 + (s2 + rest.sizes) == (s1 + s2) + rest.sizes;
  }

  /** The read loop: one byte at a time, and a whole frame after a marker. */
  method CopyInput(input: Octets, accept: Resize -> bool) returns (written: nat, result: Copied)
    ensures result == Copy(input, accept)
    ensures written == |result.output|
  {
    var output, sizes, i := [], [], 0;
    written := 0;
    while i < |input|
      invariant 0 <= i <= |input|
      invariant written == |output|
      invariant Copy(input, accept) == After(output, sizes, Copy(input[i..], accept))
    {
      assert input[i..][1..] == input[i + 1..];
      if input[i] != FRAME_MARKER {
        AfterAfter(output, sizes, [input[i]], [], Copy(input[i + 1..], accept));
        output, written, i := output + [input[i]], written + 1, i + 1;
        continue;
      }
      // ReadFull: up to ten more bytes
      var end := if |input| - i < FRAME_LENGTH then |input| else i + FRAME_LENGTH;
      var frame := input[i..end];
      if end == i + FRAME_LENGTH {
        assert input[i..][..FRAME_LENGTH] == frame && input[i..][FRAME_LENGTH..] == input[end..];
        if ValidResizeFrame(frame) {
          AfterAfter(output, sizes, [], [FrameResize(frame)], Copy(input[end..], accept));
          sizes, i := sizes + [FrameResize(frame)], end;
          if !accept(FrameResize(frame)) {
            return written, Copied(output, sizes, true);
          }
          continue;
        }
      }
      AfterAfter(output, sizes, frame, [], Copy(input[end..], accept));
      output, written, i := output + frame, written + |frame|, end;
    }
    result := Copied(output, sizes, false);
  }

  /** For arbitrary input, with an agreeable callback, the output is the input with
      nothing but whole valid frames taken out, and the sizes reported are theirs. */
  lemma {:induction false} CopyRemovesOnlyValidFrames(input: Octets, accept: Resize -> bool)
      returns (segments: seq<Segment>)
    requires forall r :: accept(r)
    ensures Original(segments) == input
    ensures KeptBytes(segments) == Copy(input, accept).output
    ensures OnlyValidTaken(segments)
    ensures TakenSizes(segments) == Copy(input, accept).sizes
    ensures !Copy(input, accept).refused
    decreases |input|
  {
    if input == [] {
      segments := [];
    } else {
      var n := if input[0] != FRAME_MARKER then 1 else if |input| < FRAME_LENGTH then |input| else FRAME_LENGTH;
      var rest := CopyRemovesOnlyValidFrames(input[n..], accept);
      var first := if ValidResizeFrame(input[..n]) then Taken(input[..n]) else Kept(input[..n]);
      segments := [first] + rest;
      assert segments[1..] == rest;
      assert input == input[..n] + input[n..];
    }
  }

  // ---- When a frame is recognised -----------------------------------------

  /** Every marker the copier meets has ten more bytes inside `user`, so the copier is done
      with `user` where it ends. */
  predicate Aligned(user: Octets) {
    || user == []
    || (user[0] != FRAME_MARKER && Aligned(user[1..]))
    || (user[0] == FRAME_MARKER && FRAME_LENGTH <= |user| && Aligned(user[FRAME_LENGTH..]))
  }

  /** How many bytes the copier deals with at once. */
  function Width(user: Octets): nat
    requires user != []
  {
    if user[0] != FRAME_MARKER then 1 else FRAME_LENGTH
  }

  /** What the copier does with the first bytes is the same with and without what follows. */
  lemma {:induction false} Peel(user: Octets, rest: Octets, accept: Resize -> bool)
      returns (output: Octets, sizes: seq<Resize>)
    requires user != [] && Width(user) <= |user| && forall r :: accept(r)
    ensures Copy(user, accept) == After(output, sizes, Copy(user[Width(user)..], accept))
    ensures Copy(user + rest, accept) == After(output, sizes, Copy(user[Width(user)..] + rest, accept))
  {
    var n := Width(user);
    assert (user + rest)[n..] == user[n..] + rest && (user + rest)[..n] == user[..n];
    if n == FRAME_LENGTH && ValidResizeFrame(user[..n]) {
      output, sizes := [], [FrameResize(user[..n])];
    } else {
      output, sizes := user[..n], [];
    }
  }

  /** Aligned bytes are copied on their own, whatever follows. */
  lemma {:induction false} CopyAligned(user: Octets, rest: Octets, accept: Resize -> bool)
    requires Aligned(user) && forall r :: accept(r)
    ensures Copy(user + rest, accept) == After(Copy(user, accept).output, Copy(user, accept).sizes, Copy(rest, accept))
    decreases |user|
  {
    if user == [] {
      assert user + rest == rest;
    } else {
      var output, sizes := Peel(user, rest, accept);
      var next := user[Width(user)..];
      CopyAligned(next, rest, accept);
      AfterAfter(output, sizes, Copy(next, accept).output, Copy(next, accept).sizes, Copy(rest, accept));
    }
  }

  lemma {:induction false} CopyShort(input: Octets, accept: Resize -> bool)
    requires |input| < FRAME_LENGTH
    ensures Copy(input, accept) == Copied(input, [], false)
    decreases |input|
  {
    if input != [] && input[0] != FRAME_MARKER {
      CopyShort(input[1..], accept);
      assert input == [input[0]] + input[1..];
    }
  }

  lemma {:induction false} ValidFrameHeader(frame: Octets)
    requires ValidResizeFrame(frame)
    ensures frame[0] == FRAME_MARKER && forall i :: 1 <= i < 6 ==> frame[i] != FRAME_MARKER
  {
    forall i | 0 <= i < 6 ensures frame[i] == FRAME_HEADER[i] {
      assert frame[..6][i] == frame[i];
    }
  }

  /** A frame after an unfinished one is not recognised: part of it is taken for the end of
      the unfinished one, and the whole is never a valid frame followed by the same bytes. */
  lemma {:induction false} UnfinishedSwallows(user: Octets, f: Octets, accept: Resize -> bool)
    requires user != [] && user[0] == FRAME_MARKER && |user| < FRAME_LENGTH && ValidResizeFrame(f)
    requires forall r :: accept(r)
    ensures Copy(user + f, accept) != Copied(user, [FrameResize(f)], false)
  {
    var k := |user|;
    var block, left := (user + f)[..FRAME_LENGTH], (user + f)[FRAME_LENGTH..];
    assert left == f[FRAME_LENGTH - k..];
    CopyShort(left, accept);
    ValidFrameHeader(f);
    if ValidResizeFrame(block) {
      ValidFrameHeader(block);
      assert block[k] == f[0];
      assert left[0] == f[FRAME_LENGTH - k] && left[0] != user[0];
    }
  }

  lemma {:induction false} AfterInjective(output: Octets, sizes: seq<Resize>, x: Copied, y: Copied)
    requires After(output, sizes, x) == After(output, sizes, y)
    ensures x == y
  {
    assert x.output == (output + x.output)[|output|..] && y.output == (output + y.output)[|output|..];
    assert x.sizes == (sizes + x.sizes)[|sizes|..] && y.sizes == (sizes + y.sizes)[|sizes|..];
  }

  lemma {:induction false} CopyUnaligned(user: Octets, f: Octets, accept: Resize -> bool)
    requires !Aligned(user) && ValidResizeFrame(f) && forall r :: accept(r)
    ensures var alone := Copy(user, accept);
      Copy(user + f, accept) != After(alone.output, alone.sizes, Copied([], [FrameResize(f)], false))
    decreases |user|
  {
    var last := Copied([], [FrameResize(f)], false);
    if |user| < Width(user) {
      CopyShort(user, accept);
      UnfinishedSwallows(user, f, accept);
    } else {
      var output, sizes := Peel(user, f, accept);
      var next := user[Width(user)..];
      CopyUnaligned(next, f, accept);
      var alone := Copy(next, accept);
      AfterAfter(output, sizes, alone.output, alone.sizes, last);
      if Copy(user + f, accept) == After(output, sizes, After(alone.output, alone.sizes, last)) {
        AfterInjective(output, sizes, Copy(next + f, accept), After(alone.output, alone.sizes, last));
      }
    }
  }

  /** A frame sent after `user` is taken out and reported, and `user` is treated as it is on
      its own, exactly when `user` is aligned. */
  lemma {:induction false} FrameRecognisedIff(user: Octets, f: Octets, accept: Resize -> bool)
    requires ValidResizeFrame(f) && forall r :: accept(r)
    ensures var alone := Copy(user, accept);
      Copy(user + f, accept) == After(alone.output, alone.sizes, Copied([], [FrameResize(f)], false)) <==> Aligned(user)
  {
    if Aligned(user) {
      CopyAligned(user, f, accept);
      ValidFrameHeader(f);
      assert f[..FRAME_LENGTH] == f && f[FRAME_LENGTH..] == [];
      assert Copy(f, accept) == Copied([], [FrameResize(f)], false);
    } else {
      CopyUnaligned(user, f, accept);
    }
  }

  // ---- Round trip ---------------------------------------------------------

  /** One thing a client sends: bytes the user typed, or the window's new size. */
  datatype Item = User(bytes: Octets) | Window(rows: int, cols: int)

  /** Aligned bytes that hold no valid frame where the copier would look for one. */
  predicate Clean(user: Octets) {
    || user == []
    || (user[0] != FRAME_MARKER && Clean(user[1..]))
    || (&& user[0] == FRAME_MARKER && FRAME_LENGTH <= |user| && !ValidResizeFrame(user[..FRAME_LENGTH])
        && Clean(user[FRAME_LENGTH..]))
  }

  lemma {:induction false} MarkerFreeIsClean(user: Octets)
    requires FRAME_MARKER !in user
    ensures Clean(user)
    decreases |user|
  {
    if user != [] {
      MarkerFreeIsClean(user[1..]);
    }
  }

  predicate Sendable(item: Item) {
    match item
    case User(bytes) => Clean(bytes)
    case Window(rows, cols) => Encodable(rows, cols)
  }

  predicate AllSendable(items: seq<Item>) {
    forall i :: 0 <= i < |items| ==> Sendable(items[i])
  }

  function Stream(items: seq<Item>): Octets
    requires AllSendable(items)
  {
    if items == [] then []
    else (match items[0] case User(b) => b case Window(r, c) => Frame(r, c)) + Stream(items[1..])
  }

  function UserBytes(items: seq<Item>): Octets {
    if items == [] then []
    else (if items[0].User? then items[0].bytes else []) + UserBytes(items[1..])
  }

  function SizesSent(items: seq<Item>): seq<Resize>
    requires AllSendable(items)
  {
    if items == [] then []
    else (match items[0] case User(_) => [] case Window(r, c) => [Resize(r as bv16, c as bv16)]) + SizesSent(items[1..])
  }

  lemma {:induction false} CopyPassesClean(user: Octets, rest: Octets, accept: Resize -> bool)
    requires Clean(user)
    ensures Copy(user + rest, accept) == After(user, [], Copy(rest, accept))
    decreases |user|
  {
    if user == [] {
      assert user + rest == rest;
    } else {
      var n := Width(user);
      assert (user + rest)[n..] == user[n..] + rest && (user + rest)[..n] == user[..n];
      CopyPassesClean(user[n..], rest, accept);
      AfterAfter(user[..n], [], user[n..], [], Copy(rest, accept));
      assert user == user[..n] + user[n..];
    }
  }

  /** Decoding undoes encoding for every interleaving of clean user bytes, as all bytes
      without a marker are, and resize frames: the user's bytes come out unchanged and every size in order. */
  lemma {:induction false} RoundTrip(items: seq<Item>, accept: Resize -> bool)
    requires AllSendable(items)
    requires forall r :: accept(r)
    ensures Copy(Stream(items), accept) == Copied(UserBytes(items), SizesSent(items), false)
    decreases |items|
  {
    if items != [] {
      RoundTrip(items[1..], accept);
      var rest := Stream(items[1..]);
      match items[0]
      case User(bytes) =>
        CopyPassesClean(bytes, rest, accept);
      case Window(rows, cols) =>
        FrameIsValid(rows, cols);
        var f := Frame(rows, cols);
        assert (f + rest)[..FRAME_LENGTH] == f && (f + rest)[FRAME_LENGTH..] == rest;
    }
  }

  /** The marker restriction matters: a lone marker typed just before a frame makes
      the copier deliver the frame as user bytes and report no size. */
  lemma {:induction false} MarkerByteSwallowsFrame(rows: int, cols: int, accept: Resize -> bool)
    requires Encodable(rows, cols)
    ensures var input := [FRAME_MARKER] + Frame(rows, cols);
      Copy(input, accept) == Copied(input, [], false)
  {
    FrameIsValid(rows, cols);
    var f := Frame(rows, cols);
    var input := [FRAME_MARKER] + f;
    assert input[..FRAME_LENGTH] == [FRAME_MARKER] + f[..10] && input[FRAME_LENGTH..] == [f[10]];
    assert input[..FRAME_LENGTH][..6][1] == FRAME_MARKER;
    assert [f[10]][1..] == [];
    assert Copy([f[10]], accept) == Copied([f[10]], [], false);
  }
}
