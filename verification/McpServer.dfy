/** The MCP server's loop on standard input and output. */
module McpServer {
  import opened Basics
  import opened ByteStrings
  import opened McpFraming

  datatype Framing = Unknown | HeaderLines | RawJson

  /** `Raw` stands for handing the rest of the input to the JSON decoder. */
  datatype Outcome = Message(body: Bytes) | Failed(error: Error) | Raw

  predicate StartsJson(input: Bytes) { input != [] && (input[0] == 0x7b || input[0] == 0x5b) }

  function Receive(framing: Framing, input: Bytes): (r: (Outcome, Framing, Bytes))
    ensures |r.2| <= |input| && (r.0.Message? ==> |r.2| < |input| && r.1 == HeaderLines)
    ensures r.0.Raw? <==> framing == RawJson || (input != [] && input[0] in {0x7b, 0x5b})
    ensures r.0.Raw? ==> r.1 == RawJson && r.2 == input
  {
    if framing == RawJson then (Raw, RawJson, input)
    else if input == [] then (Failed(Eof), framing, input)
    else if StartsJson(input) then (Raw, RawJson, input)
    else
      var (r, rest) := ReadFrame(input);
      (if r.Ok? then Message(r.value) else Failed(r.error), HeaderLines, rest)
  }

  function Reply(reply: Option<Bytes>): Bytes {
    if reply.Some? then Frame(reply.value) else []
  }

  /** Everything written in answer to the input, and what ended the exchange. */
  function Served(handle: Bytes -> Option<Bytes>, framing: Framing, input: Bytes): (Bytes, Outcome)
    decreases |input|
  {
    var (outcome, framing', rest) := Receive(framing, input);
    match outcome
    case Message(m) => var (out, last) := Served(handle, framing', rest); (Reply(handle(m)) + out, last)
    case Failed(_) => ([], outcome)
    case Raw => ([], outcome)
  }

  lemma {:induction false} ServedStep(handle: Bytes -> Option<Bytes>, framing: Framing, input: Bytes)
    ensures var (outcome, framing', rest) := Receive(framing, input);
      && (outcome.Message? ==>
            Served(handle, framing, input).0 == Reply(handle(outcome.body)) + Served(handle, framing', rest).0)
      && (outcome.Message? ==> Served(handle, framing, input).1 == Served(handle, framing', rest).1)
      && (!outcome.Message? ==> Served(handle, framing, input) == ([], outcome))
  {
  }

  /** What has been written and what is still to be served make up `total`. */
  ghost predicate Owes(
      handle: Bytes -> Option<Bytes>, total: (Bytes, Outcome), output: Bytes, framing: Framing, input: Bytes)
  {
    && total.0 == output + Served(handle, framing, input).0
    && total.1 == Served(handle, framing, input).1
  }

  lemma {:induction false} OwesStep(
      handle: Bytes -> Option<Bytes>, total: (Bytes, Outcome), output: Bytes, framing: Framing, input: Bytes)
    requires Owes(handle, total, output, framing, input)
    ensures var (outcome, framing', rest) := Receive(framing, input);
      && (outcome.Message? ==> Owes(handle, total, output + Reply(handle(outcome.body)), framing', rest))
      && (!outcome.Message? ==> total == (output, outcome))
  {
    ServedStep(handle, framing, input);
    var (outcome, framing', rest) := Receive(framing, input);
    if outcome.Message? {
      Assoc(output, Reply(handle(outcome.body)), Served(handle, framing', rest).0);
    } else {
      assert output + [] == output;
    }
  }

  class McpStdioServer {
    var input: Bytes
    var output: Bytes
    var framing: Framing

    constructor (bytes: Bytes)
      ensures input == bytes && output == [] && framing == Unknown
    {
      input, output, framing := bytes, [], Unknown;
    }

    method ReadMessage() returns (outcome: Outcome)
      modifies this
      ensures (outcome, framing, input) == Receive(old(framing), old(input))
      ensures output == old(output)
    {
      if framing == RawJson {
        return Raw;
      }
      if input == [] {
        return Failed(Eof);
      }
      if StartsJson(input) {
        framing := RawJson;
        return Raw;
      }
      framing := HeaderLines;
      var length := ReadHeaderBlock();
      if length.Err? {
        return Failed(length.error);
      }
      if length.value == 0 {
        return Failed(MissingLength);
      }
      var (body, rest) := ReadBody(input, length.value);
      input := rest;
      outcome := if body.Ok? then Message(body.value) else Failed(body.error);
    }

    method ReadHeaderBlock() returns (length: Result<nat>)
      modifies this`input
      ensures (length, input) == ReadHeaders(old(input), 0)
    {
      var contentLength := 0;
      while true
        invariant ReadHeaders(input, contentLength) == ReadHeaders(old(input), 0)
        decreases |input|
      {
        var end := IndexByte(input, LF);
        if end < 0 {
          input := [];
          return Err(Eof);
        }
        var line := TrimEol(input[..end]);
        input := input[end + 1..];
        if line == [] {
          return Ok(contentLength);
        }
        var header := HeaderLine(line, contentLength);
        if header.Err? {
          return header;
        }
        contentLength := header.value;
      }
    }

    method WriteMessage(data: Bytes)
      modifies this`output
      ensures output == old(output) + (if framing == RawJson then data + [LF] else Frame(data))
    {
      if framing == RawJson {
        output := output + (data + [LF]);
      } else {
        output := output + Frame(data);
      }
    }

    method Serve(handle: Bytes -> Option<Bytes>) returns (last: Outcome)
      modifies this
      ensures output == old(output) + Served(handle, old(framing), old(input)).0
      ensures last == Served(handle, old(framing), old(input)).1
    {
      ghost var served := Served(handle, framing, input);
      ghost var total := (output + served.0, served.1);
      while true
        invariant Owes(handle, total, output, framing, input)
        decreases |input|
      {
        OwesStep(handle, total, output, framing, input);
        last := ReadMessage();
        if !last.Message? {
          return;
        }
        var reply := handle(last.body);
        if reply.Some? {
          WriteMessage(reply.value);
        } else {
          assert output + [] == output;
        }
      }
    }
  }

  function Replies(handle: Bytes -> Option<Bytes>, requests: seq<Bytes>): seq<Bytes> {
    if requests == [] then []
    else
      var reply := handle(requests[0]);
      (if reply.Some? then [reply.value] else []) + Replies(handle, requests[1..])
  }

  lemma {:induction false} ReceiveFrame(framing: Framing, m: Bytes, rest: Bytes)
    requires framing != RawJson && Sendable(m)
    ensures Receive(framing, Frame(m) + rest) == (Message(m), HeaderLines, rest)
  {
    FrameReadsBack(m, rest);
    FrameStarts(m, rest);
  }

  lemma {:induction false} FrameStarts(m: Bytes, rest: Bytes)
    ensures Frame(m) + rest != [] && (Frame(m) + rest)[0] == 0x43
  {
    assert CONTENT_LENGTH[0] == 0x43;
  }

  lemma {:induction false} RepliesFrames(handle: Bytes -> Option<Bytes>, m: Bytes, more: seq<Bytes>)
    ensures Frames(Replies(handle, [m] + more)) == Reply(handle(m)) + Frames(Replies(handle, more))
  {
    assert ([m] + more)[1..] == more;
    var rest := Replies(handle, more);
    if handle(m).Some? {
      assert ([handle(m).value] + rest)[1..] == rest;
    } else {
      assert [] + rest == rest;
    }
  }

  lemma {:induction false} ServedCons(handle: Bytes -> Option<Bytes>, framing: Framing, m: Bytes, more: seq<Bytes>)
    requires framing != RawJson && Sendable(m)
    ensures Served(handle, framing, Frames([m] + more)).0
      == Reply(handle(m)) + Served(handle, HeaderLines, Frames(more)).0
    ensures Served(handle, framing, Frames([m] + more)).1 == Served(handle, HeaderLines, Frames(more)).1
  {
    assert ([m] + more)[1..] == more;
    ReceiveFrame(framing, m, Frames(more));
    ServedStep(handle, framing, Frame(m) + Frames(more));
  }

  lemma {:induction false} ServedFrames(handle: Bytes -> Option<Bytes>, framing: Framing, requests: seq<Bytes>)
    requires framing != RawJson && AllSendable(requests)
    ensures Served(handle, framing, Frames(requests)) == (Frames(Replies(handle, requests)), Failed(Eof))
    decreases |requests|
  {
    if requests != [] {
      var m, more := requests[0], requests[1..];
      assert requests == [m] + more;
      ServedFrames(handle, HeaderLines, more);
      ServedCons(handle, framing, m, more);
      RepliesFrames(handle, m, more);
    }
  }

  /** Requests sent as frames are answered, in order, by frames, and the exchange ends at the
      end of the input. The client reads back the handler's replies exactly when every one of
      them is sendable. */
  lemma {:induction false} Exchange(handle: Bytes -> Option<Bytes>, framing: Framing, requests: seq<Bytes>)
    requires framing != RawJson && AllSendable(requests)
    ensures Served(handle, framing, Frames(requests)).1 == Failed(Eof)
    ensures AllSendable(Replies(handle, requests)) <==>
      ReadAll(Served(handle, framing, Frames(requests)).0) == (Replies(handle, requests), Eof, [])
  {
    ServedFrames(handle, framing, requests);
    FramesReadBack(Replies(handle, requests));
  }
}
