/** Bounded capture of a command's output: the buffered writer and the streaming writer
    must keep the same bytes and agree on truncation. */
module OutputCapture {
  import opened ByteStrings

  datatype Kind = Stdout | Stderr

  const DEFAULT_LIMIT: int := 10 * 1024 * 1024

  function OutputLimit(limit: int): (r: int)
    ensures r > 0
    ensures r == if limit > 0 then limit else 10485760
  {
    if limit <= 0 then DEFAULT_LIMIT else limit
  }

  /** The first `limit` bytes. */
  function Take(s: Bytes, limit: int): Bytes {
    if limit <= 0 then [] else if |s| <= limit then s else s[..limit]
  }

  // ---- The buffered writer ------------------------------------------------

  datatype Buffer = Buffer(held: Bytes, truncated: bool)

  function BufferWrite(b: Buffer, limit: int, p: Bytes): Buffer {
    if limit <= 0 then b.(truncated := true)
    else
      var remaining := limit - |b.held|;
      if remaining <= 0 then Buffer(b.held, b.truncated || |p| > 0)
      else if |p| > remaining then Buffer(b.held + p[..remaining], true)
      else Buffer(b.held + p, b.truncated)
  }

  class BoundedExecBuffer {
    var buf: Bytes
    const limit: int
    var truncated: bool

    constructor (limit: int)
      ensures this.limit == limit && View() == Buffer([], false)
    {
      this.limit := limit;
      buf, truncated := [], false;
    }

    ghost function View(): Buffer
      reads this
    {
      Buffer(buf, truncated)
    }

    method Write(p: Bytes) returns (n: nat)
      modifies this
      ensures View() == BufferWrite(old(View()), limit, p) && n == |p|
    {
      n := |p|;
      if limit <= 0 {
        truncated := true;
        return;
      }
      var remaining := limit - |buf|;
      if remaining <= 0 {
        if |p| > 0 {
          truncated := true;
        }
        return;
      }
      if |p| > remaining {
        buf := buf + p[..remaining];
        truncated := true;
        return;
      }
      buf := buf + p;
    }
  }

  // ---- The streaming writer -----------------------------------------------

  datatype Frame = Frame(kind: Kind, chunk: Bytes)

  datatype Stream = Stream(written: int, truncated: bool)

  /** The chunk a write sends, empty when it sends none. */
  function Chunk(s: Stream, limit: int, p: Bytes): Bytes {
    if limit <= 0 then p
    else if s.written >= limit then []
    else if |p| > limit - s.written then p[..limit - s.written]
    else p
  }

  function StreamWrite(s: Stream, limit: int, p: Bytes): Stream {
    Stream(s.written + |Chunk(s, limit, p)|, s.truncated || |Chunk(s, limit, p)| < |p|)
  }

  class ExecStreamWriter {
    const kind: Kind
    const limit: int
    var written: nat
    var truncated: bool

    constructor (kind: Kind, limit: int)
      ensures this.kind == kind && this.limit == limit && View() == Stream(0, false)
    {
      this.kind, this.limit := kind, limit;
      written, truncated := 0, false;
    }

    ghost function View(): Stream
      reads this
    {
      Stream(written, truncated)
    }

    /** `sent` is what goes out on the connection. A send that fails is reported, though all
        bytes still count as taken; it sends nothing, and nothing counts as written. */
    method Write(p: Bytes, sendOk: bool) returns (n: nat, failed: bool, sent: seq<Frame>)
      modifies this
      ensures n == |p| && (failed <==> !sendOk && Chunk(old(View()), limit, p) != [])
      ensures var chunk := Chunk(old(View()), limit, p);
        && sent == (if chunk != [] && sendOk then [Frame(kind, chunk)] else [])
        && truncated == StreamWrite(old(View()), limit, p).truncated
        && written == if sendOk then StreamWrite(old(View()), limit, p).written else old(written)
    {
      n, failed, sent := |p|, false, [];
      var chunk := p;
      if limit > 0 {
        var remaining := limit - written;
        if remaining <= 0 {
          if n > 0 {
            truncated := true;
          }
          return;
        }
        if |chunk| > remaining {
          chunk := chunk[..remaining];
          truncated := true;
        }
      }
      if |chunk| == 0 {
        return;
      }
      if !sendOk {
        failed := true;
        return;
      }
      sent := [Frame(kind, chunk)];
      written := written + |chunk|;
    }
  }

  // ---- Runs ---------------------------------------------------------------

  datatype Output = Output(kind: Kind, bytes: Bytes)

  /** All bytes a run writes to one of the two outputs. */
  function Total(kind: Kind, run: seq<Output>): Bytes
    decreases |run|
  {
    if run == [] then []
    else
      var last := run[|run| - 1];
      Total(kind, run[..|run| - 1]) + if last.kind == kind then last.bytes else []
  }

  function Buffered(kind: Kind, limit: int, run: seq<Output>): Buffer
    decreases |run|
  {
    if run == [] then Buffer([], false)
    else
      var before, last := Buffered(kind, limit, run[..|run| - 1]), run[|run| - 1];
      if last.kind == kind then BufferWrite(before, limit, last.bytes) else before
  }

  function Streamed(kind: Kind, limit: int, run: seq<Output>): Stream
    decreases |run|
  {
    if run == [] then Stream(0, false)
    else
      var before, last := Streamed(kind, limit, run[..|run| - 1]), run[|run| - 1];
      if last.kind == kind then StreamWrite(before, limit, last.bytes) else before
  }

  datatype Limits = Limits(stdout: int, stderr: int)

  function LimitFor(l: Limits, kind: Kind): int {
    if kind == Stdout then l.stdout else l.stderr
  }

  /** The frames on the shared connection, both outputs interleaved. */
  function Frames(l: Limits, run: seq<Output>): seq<Frame>
    decreases |run|
  {
    if run == [] then []
    else
      var init, last := run[..|run| - 1], run[|run| - 1];
      var chunk := Chunk(Streamed(last.kind, LimitFor(l, last.kind), init), LimitFor(l, last.kind), last.bytes);
      Frames(l, init) + if chunk == [] then [] else [Frame(last.kind, chunk)]
  }

  /** What a reader assembles from the frames of one kind. */
  function Assemble(kind: Kind, frames: seq<Frame>): Bytes
    decreases |frames|
  {
    if frames == [] then []
    else
      var last := frames[|frames| - 1];
      Assemble(kind, frames[..|frames| - 1]) + if last.kind == kind then last.chunk else []
  }

  /** The buffer holds exactly the first `limit` bytes and knows whether more came. */
  lemma {:induction false} BufferedIsPrefix(kind: Kind, limit: int, run: seq<Output>)
    requires limit > 0
    ensures Buffered(kind, limit, run) == Buffer(Take(Total(kind, run), limit), |Total(kind, run)| > limit)
    ensures var total := Total(kind, run);
      Buffered(kind, limit, run).held == if |total| <= limit then total else total[..limit]
    decreases |run|
  {
    if run != [] {
      BufferedIsPrefix(kind, limit, run[..|run| - 1]);
      TakeMore(Total(kind, run[..|run| - 1]), limit, run[|run| - 1].bytes);
    }
  }

  lemma {:induction false} TakeMore(s: Bytes, limit: int, p: Bytes)
    requires limit > 0
    ensures |s| >= limit ==> Take(s + p, limit) == Take(s, limit)
    ensures |s| < limit && |p| > limit - |s| ==> Take(s + p, limit) == s + p[..limit - |s|]
    ensures s + [] == s
  {
  }

  lemma {:induction false} AssembleSnoc(kind: Kind, frames: seq<Frame>, f: Frame)
    ensures Assemble(kind, frames + [f]) == Assemble(kind, frames) + (if f.kind == kind then f.chunk else [])
  {
    assert (frames + [f])[..|frames|] == frames;
  }

  /** The streaming writer has sent exactly the first `limit` bytes so far. */
  lemma {:induction false} StreamedIsPrefix(kind: Kind, l: Limits, run: seq<Output>)
    requires LimitFor(l, kind) > 0
    ensures var limit := LimitFor(l, kind); var total := Total(kind, run);
      && Assemble(kind, Frames(l, run)) == Take(total, limit)
      && Streamed(kind, limit, run) == Stream(|Take(total, limit)|, |total| > limit)
    decreases |run|
  {
    var limit := LimitFor(l, kind);
    if run != [] {
      var init, last := run[..|run| - 1], run[|run| - 1];
      StreamedIsPrefix(kind, l, init);
      TakeMore(Total(kind, init), limit, last.bytes);
      var chunk := Chunk(Streamed(last.kind, LimitFor(l, last.kind), init), LimitFor(l, last.kind), last.bytes);
      AssembleSnoc(kind, Frames(l, init), Frame(last.kind, chunk));
      assert Frames(l, init) + [] == Frames(l, init);
    }
  }

  /** Streamed output refines buffered output: for every interleaving of writes to the
      two outputs, the frames of each kind assemble to what the buffer holds, and both
      report truncation exactly when more than the limit was written. */
  lemma {:induction false} StreamRefinesBuffer(kind: Kind, l: Limits, run: seq<Output>)
    requires LimitFor(l, kind) > 0
    ensures Assemble(kind, Frames(l, run)) == Buffered(kind, LimitFor(l, kind), run).held
    ensures Streamed(kind, LimitFor(l, kind), run).truncated == Buffered(kind, LimitFor(l, kind), run).truncated
  {
    BufferedIsPrefix(kind, LimitFor(l, kind), run);
    StreamedIsPrefix(kind, l, run);
  }

  ghost predicate Agree(kind: Kind, l: Limits, run: seq<Output>) {
    && Assemble(kind, Frames(l, run)) == Buffered(kind, LimitFor(l, kind), run).held
    && Streamed(kind, LimitFor(l, kind), run).truncated == Buffered(kind, LimitFor(l, kind), run).truncated
  }

  /** The two writers agree on every run exactly when the limit is positive, which is
      what OutputLimit provides: with no limit the stream sends all and the buffer keeps
      nothing. */
  lemma {:induction false} AgreeIffPositive(kind: Kind, l: Limits)
    ensures (forall run :: Agree(kind, l, run)) <==> LimitFor(l, kind) > 0
  {
    if LimitFor(l, kind) > 0 {
      forall run ensures Agree(kind, l, run) {
        StreamRefinesBuffer(kind, l, run);
      }
    } else {
      var run := [Output(kind, [0x78])];
      assert run[..0] == [];
      assert !Streamed(kind, LimitFor(l, kind), run).truncated;
      assert Buffered(kind, LimitFor(l, kind), run).truncated;
      assert !Agree(kind, l, run);
    }
  }
}
