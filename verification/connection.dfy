/**
 * `handle_connection`: read a bounded request from the socket, answer it,
 * write the answer back in as many pieces as the socket takes, and flush.
 *
 * The socket is replaced by scripts. The peer sends `incoming` and then
 * closes; the i-th read delivers at most `readScript[i]` bytes (or fails), and
 * reads past the end of the script see the peer closed. The i-th write is
 * taken up to `writeScript[i]` bytes (or fails); a write past the end of the
 * script fails.
 */
module Connection {
  import opened Wrappers
  import opened Utf8
  import opened FileResolver
  import opened Router

  /** `BUFFER_SIZE`: the request is never longer than this. */
  const BufferSize: nat := 8192

  /** The errors `handle_connection` returns with `?`. */
  datatype IoError = ReadFailed | FlushFailed

  /** One call of `stream.read`: at most `size` bytes are ready, or the call fails. */
  datatype ReadStep = Chunk(size: nat) | ReadFails

  /** One call of `stream.write`: the socket takes at most `room` bytes, or the call fails. */
  datatype WriteStep = Accepts(room: nat) | WriteFails

  function Min(a: int, b: int): int
  {
    if a <= b then a else b
  }

  /** The number of bytes `stream.read` puts into the buffer's free tail on the `i`-th call. */
  function ReadCount(incoming: seq<byte>, readScript: seq<ReadStep>, i: nat, total: nat): Result<nat, IoError>
    requires total <= |incoming| && total < BufferSize
  {
    if i >= |readScript| then Ok(0)
    else match readScript[i]
      case ReadFails => Err(ReadFailed)
      case Chunk(size) => Ok(Min(size, Min(BufferSize - total, |incoming| - total)))
  }

  /**
   * The read loop as a function of the socket: the final `total_read`, read
   * from call `i` on with `total` bytes already in the buffer.
   */
  function Gathered(incoming: seq<byte>, readScript: seq<ReadStep>, i: nat, total: nat): (r: Result<nat, IoError>)
    requires total <= |incoming| && total < BufferSize
    ensures r.Ok? ==> total <= r.value <= |incoming| && r.value <= BufferSize
    ensures r.Err? ==> r.error == ReadFailed
    decreases BufferSize - total
  {
    match ReadCount(incoming, readScript, i, total)
    case Err(e) => Err(e)
    case Ok(n) =>
      if n == 0 then Ok(total)
      else if total + n >= BufferSize then Ok(total + n)
      else Gathered(incoming, readScript, i + 1, total + n)
  }

  /**
   * The read loop: fills a fixed buffer until a read returns nothing or the
   * buffer is full, and returns `buffer[..total_read]`, a prefix of what the
   * peer sent.
   */
  method ReadRequest(incoming: seq<byte>, readScript: seq<ReadStep>) returns (r: Result<seq<byte>, IoError>)
    ensures Gathered(incoming, readScript, 0, 0).Err? ==> r == Err(Gathered(incoming, readScript, 0, 0).error)
    ensures Gathered(incoming, readScript, 0, 0).Ok? ==> r == Ok(incoming[..Gathered(incoming, readScript, 0, 0).value])
    ensures r.Ok? ==> |r.value| <= BufferSize && r.value <= incoming
  {
    var buffer := new byte[BufferSize];
    var totalRead := 0;
    var i := 0;
    while true
      invariant 0 <= totalRead < BufferSize && totalRead <= |incoming|
      invariant buffer.Length == BufferSize
      invariant forall k :: 0 <= k < totalRead ==> buffer[k] == incoming[k]
      invariant Gathered(incoming, readScript, i, totalRead) == Gathered(incoming, readScript, 0, 0)
      decreases BufferSize - totalRead
    {
      var call := ReadCount(incoming, readScript, i, totalRead);
      if call.Err? {
        return Err(call.error);
      }
      var bytesRead := call.value;
      forall k | totalRead <= k < totalRead + bytesRead {
        buffer[k] := incoming[k];
      }
      i := i + 1;
      if bytesRead == 0 {
        break;
      }
      totalRead := totalRead + bytesRead;
      if totalRead >= buffer.Length {
        assert buffer[..totalRead] == incoming[..totalRead];
        return Ok(buffer[..totalRead]);
      }
    }
    assert buffer[..totalRead] == incoming[..totalRead];
    return Ok(buffer[..totalRead]);
  }

  /** The bytes the `i`-th `stream.write` takes when offered `remaining` bytes; `None` when it fails. */
  function WriteCount(writeScript: seq<WriteStep>, i: nat, remaining: nat): Option<nat>
  {
    if i >= |writeScript| then None
    else match writeScript[i]
      case WriteFails => None
      case Accepts(room) => Some(Min(room, remaining))
  }

  /**
   * The write loop as a function of the socket: the final `written`, from
   * call `i` on with `written` bytes of a `len`-byte response already sent.
   */
  function Sent(len: nat, writeScript: seq<WriteStep>, i: nat, written: nat): (r: nat)
    requires written <= len
    ensures written <= r <= len
    decreases len - written
  {
    if written == len then written
    else match WriteCount(writeScript, i, len - written)
      case None => written
      case Some(n) => if n == 0 then written else Sent(len, writeScript, i + 1, written + n)
  }

  /**
   * The write loop: offers the unsent tail of the response until all of it is
   * taken, a write takes nothing, or a write fails. The peer receives a
   * prefix of the response, in order.
   */
  method WriteResponse(response: seq<byte>, writeScript: seq<WriteStep>) returns (delivered: seq<byte>)
    ensures delivered == response[..Sent(|response|, writeScript, 0, 0)]
  {
    var written := 0;
    var i := 0;
    delivered := [];
    while written < |response|
      invariant written <= |response|
      invariant delivered == response[..written]
      invariant Sent(|response|, writeScript, i, written) == Sent(|response|, writeScript, 0, 0)
      decreases |response| - written
    {
      var call := WriteCount(writeScript, i, |response| - written);
      if call.None? {
        break;
      }
      var n := call.value;
      if n == 0 {
        break;
      }
      delivered := delivered + response[written..written + n];
      written := written + n;
      i := i + 1;
    }
  }

  /** The response bytes for a request: the routing `match`, then `as_bytes`. */
  function Respond(fs: FileSystem, request: seq<byte>): seq<byte>
    requires Resolvable(fs, Decode(request))
  {
    Encode(Route(fs, Decode(request)))
  }

  /** The sockets on which `handle_connection` returns: whatever request it reads can be answered. */
  predicate Answerable(fs: FileSystem, incoming: seq<byte>, readScript: seq<ReadStep>)
  {
    var gathered := Gathered(incoming, readScript, 0, 0);
    gathered.Ok? ==> Resolvable(fs, Decode(incoming[..gathered.value]))
  }

  /** What a connection comes to: the bytes the peer receives and what `handle_connection` returns. */
  datatype Outcome = Outcome(delivered: seq<byte>, result: Result<(), IoError>)

  /**
   * `handle_connection`: a failed read ends it before anything is written;
   * otherwise the peer receives the prefix of the response that the write
   * loop got out, and the result is that of the flush.
   */
  method HandleConnection(fs: FileSystem, incoming: seq<byte>, readScript: seq<ReadStep>,
                          writeScript: seq<WriteStep>, flushOk: bool) returns (out: Outcome)
    requires Answerable(fs, incoming, readScript)
    ensures Gathered(incoming, readScript, 0, 0).Err? ==> out == Outcome([], Err(ReadFailed))
    ensures Gathered(incoming, readScript, 0, 0).Ok? ==>
              var response := Respond(fs, incoming[..Gathered(incoming, readScript, 0, 0).value]);
              out.delivered == response[..Sent(|response|, writeScript, 0, 0)]
              && out.result == (if flushOk then Ok(()) else Err(FlushFailed))
  {
    var request := ReadRequest(incoming, readScript);
    if request.Err? {
      return Outcome([], Err(request.error));
    }
    var response := Respond(fs, request.value);
    var delivered := WriteResponse(response, writeScript);
    if !flushOk {
      return Outcome(delivered, Err(FlushFailed));
    }
    return Outcome(delivered, Ok(()));
  }

  /**
   * When every read delivers something and the script is long enough, the
   * request is everything the peer sent, cut at the buffer size.
   */
  lemma {:induction false} GatheredAll(incoming: seq<byte>, readScript: seq<ReadStep>, i: nat, total: nat)
    requires total <= |incoming| && total < BufferSize
    requires forall j :: i <= j < |readScript| ==> readScript[j].Chunk? && readScript[j].size > 0
    requires |readScript| - i >= Min(|incoming|, BufferSize) - total
    ensures Gathered(incoming, readScript, i, total) == Ok(Min(|incoming|, BufferSize))
    decreases BufferSize - total
  {
    var call := ReadCount(incoming, readScript, i, total);
    if call.value > 0 && total + call.value < BufferSize {
      GatheredAll(incoming, readScript, i + 1, total + call.value);
    }
  }

  /** When every write takes something and the script is long enough, the whole response goes out. */
  lemma {:induction false} SentAll(len: nat, writeScript: seq<WriteStep>, i: nat, written: nat)
    requires written <= len
    requires forall j :: i <= j < |writeScript| ==> writeScript[j].Accepts? && writeScript[j].room > 0
    requires |writeScript| - i >= len - written
    ensures Sent(len, writeScript, i, written) == len
    decreases len - written
  {
    if written < len {
      SentAll(len, writeScript, i + 1, written + WriteCount(writeScript, i, len - written).value);
    }
  }

  /**
   * The read loop, started at call `i` with `total` bytes in the buffer,
   * makes call `j` with `r` bytes in it: every call before `j` delivered at
   * least one byte and left the buffer short of full.
   */
  predicate ReadsReach(incoming: seq<byte>, readScript: seq<ReadStep>, i: nat, total: nat, j: nat, r: nat)
    requires total <= |incoming| && total < BufferSize
    decreases BufferSize - total
  {
    || (i == j && total == r)
    || (var call := ReadCount(incoming, readScript, i, total);
        && call.Ok? && call.value > 0 && total + call.value < BufferSize
        && ReadsReach(incoming, readScript, i + 1, total + call.value, j, r))
  }

  /**
   * A request shorter than the buffer means the loop ended on a read that
   * returned nothing: the loop makes that call with the final `total_read`
   * in the buffer, and there are at most as many calls before it as bytes read.
   */
  lemma {:induction false} GatheredStopsOnEmptyRead(incoming: seq<byte>, readScript: seq<ReadStep>, i: nat, total: nat)
    requires total <= |incoming| && total < BufferSize
    requires Gathered(incoming, readScript, i, total).Ok?
    requires Gathered(incoming, readScript, i, total).value < BufferSize
    ensures var r := Gathered(incoming, readScript, i, total).value;
            exists j :: i <= j <= i + (r - total)
                        && ReadsReach(incoming, readScript, i, total, j, r)
                        && ReadCount(incoming, readScript, j, r) == Ok(0)
    decreases BufferSize - total
  {
    var r := Gathered(incoming, readScript, i, total).value;
    var n := ReadCount(incoming, readScript, i, total).value;
    if n == 0 {
      assert ReadsReach(incoming, readScript, i, total, i, r);
      assert ReadCount(incoming, readScript, i, total) == Ok(0);
    } else {
      GatheredStopsOnEmptyRead(incoming, readScript, i + 1, total + n);
      var j :| i + 1 <= j <= i + 1 + (r - (total + n))
               && ReadsReach(incoming, readScript, i + 1, total + n, j, r)
               && ReadCount(incoming, readScript, j, r) == Ok(0);
      assert ReadsReach(incoming, readScript, i, total, j, r);
    }
  }

  /**
   * The `i`-th write, with `written` of `len` bytes sent, fails (`Err`) or
   * takes nothing (`Ok(0)`): the two ways out of the loop before the end.
   */
  predicate Stalled(len: nat, writeScript: seq<WriteStep>, i: nat, written: nat)
  {
    written <= len &&
    var call := WriteCount(writeScript, i, len - written);
    call.None? || call.value == 0
  }

  /**
   * The write loop, started at call `i` with `written` bytes sent, makes
   * call `j` with `w` bytes sent: every call before `j` took at least one
   * byte and left part of the response unsent.
   */
  predicate WritesReach(len: nat, writeScript: seq<WriteStep>, i: nat, written: nat, j: nat, w: nat)
    requires written <= len
    decreases len - written
  {
    || (i == j && written == w)
    || (var call := WriteCount(writeScript, i, len - written);
        && written < len && call.Some? && call.value > 0
        && WritesReach(len, writeScript, i + 1, written + call.value, j, w))
  }

  /**
   * A response cut short means the loop ended on a write that took nothing or
   * failed: the loop makes that call with the final `written`, and there are
   * at most as many calls before it as bytes sent.
   */
  lemma {:induction false} SentStopsOnStalledWrite(len: nat, writeScript: seq<WriteStep>, i: nat, written: nat)
    requires written <= len
    requires Sent(len, writeScript, i, written) < len
    ensures var r := Sent(len, writeScript, i, written);
            exists j :: i <= j <= i + (r - written)
                        && WritesReach(len, writeScript, i, written, j, r)
                        && Stalled(len, writeScript, j, r)
    decreases len - written
  {
    var r := Sent(len, writeScript, i, written);
    var call := WriteCount(writeScript, i, len - written);
    if call.None? || call.value == 0 {
      assert WritesReach(len, writeScript, i, written, i, r);
      assert Stalled(len, writeScript, i, r);
    } else {
      var n := call.value;
      SentStopsOnStalledWrite(len, writeScript, i + 1, written + n);
      var j :| i + 1 <= j <= i + 1 + (r - (written + n))
               && WritesReach(len, writeScript, i + 1, written + n, j, r)
               && Stalled(len, writeScript, j, r);
      assert WritesReach(len, writeScript, i, written, j, r);
    }
  }

  /** A line feed byte decodes to a line feed, and decoding goes on after it unaffected. */
  lemma DecodeLineFeed(a: seq<byte>, rest: seq<byte>)
    ensures Decode(a + [0x0A] + rest) == Decode(a) + "\n" + Decode(rest)
  {
    assert a + [0x0A] + rest == a + ([0x0A] + rest);
    DecodeSplit(a, [0x0A] + rest);
    assert ([0x0A] + rest)[1..] == rest;
  }

  /** Changing the bytes after the first line feed does not change the response. */
  lemma FirstLineBytesDecide(fs: FileSystem, a: seq<byte>, rest: seq<byte>, rest': seq<byte>)
    requires 0x0A !in a
    requires Resolvable(fs, Decode(a + [0x0A] + rest))
    ensures Resolvable(fs, Decode(a + [0x0A] + rest'))
    ensures Respond(fs, a + [0x0A] + rest) == Respond(fs, a + [0x0A] + rest')
  {
    DecodeLineFeed(a, rest);
    DecodeLineFeed(a, rest');
    DecodeWithoutNewline(a);
    FirstLineDecides(Decode(a), Decode(rest), Decode(rest'));
  }

  /** The 500 answer goes out exactly when the request is empty. */
  lemma RespondErrorIff(fs: FileSystem, request: seq<byte>)
    requires Resolvable(fs, Decode(request))
    ensures Respond(fs, request) == Encode(InternalError) <==> request == []
  {
    RouteStatus(fs, Decode(request));
    if Respond(fs, request) == Encode(InternalError) {
      EncodeInjective(Route(fs, Decode(request)), InternalError);
    }
  }
}
