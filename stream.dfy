/** ScanStream of clamd.go: the INSTREAM command, then the reader's output in
    chunks of at most CHUNK_SIZE bytes, then the zero-length terminator, and
    the reply read back.

    The io.Reader is a Source that follows a script: each Read call hands out
    the next reply of the script (some bytes, and whether an error came with
    them); once the script is used up, Read returns no bytes and io.EOF. */
module Stream {
  import opened ByteText
  import opened Response
  import opened Framing
  import opened Lines
  import opened Conn
  import opened Clamd

  const INSTREAM: Bytes := "INSTREAM"

  /** What one Read call returns: the bytes placed in the buffer, and whether
      an error (io.EOF or any other) was returned with them. */
  datatype ReadReply = ReadReply(data: Bytes, failed: bool)

  /** Every reply fits in a buffer of CHUNK_SIZE bytes, as the io.Reader
      contract (n <= len(p)) requires. */
  predicate FitsBuffer(script: seq<ReadReply>) {
    forall i | 0 <= i < |script| :: |script[i].data| <= CHUNK_SIZE
  }

  class Source {
    var replies: seq<ReadReply>

    constructor (script: seq<ReadReply>)
      ensures replies == script
    {
      replies := script;
    }

    /** io.Reader.Read into `buf`. */
    method Read(buf: array<Byte>) returns (nr: nat, failed: bool)
      requires |replies| > 0 ==> |replies[0].data| <= buf.Length
      modifies this, buf
      ensures |old(replies)| == 0 ==> nr == 0 && failed && replies == old(replies)
      ensures |old(replies)| > 0 ==>
        nr == |old(replies)[0].data| && failed == old(replies)[0].failed && replies == old(replies)[1..]
      ensures nr <= buf.Length && buf[..nr] == if |old(replies)| == 0 then [] else old(replies)[0].data
    {
      if |replies| == 0 {
        return 0, true;
      }
      var data := replies[0].data;
      failed := replies[0].failed;
      replies := replies[1..];
      nr := |data|;
      for i := 0 to nr
        invariant replies == old(replies)[1..]
        invariant forall j | 0 <= j < i :: buf[j] == data[j]
      {
        buf[i] := data[i];
      }
    }
  }

  /** The chunks ScanStream sends for a script: the non-empty data of each
      reply, up to and including the first reply that came with an error. */
  function Payloads(script: seq<ReadReply>): seq<Bytes> {
    if |script| == 0 then []
    else
      (if |script[0].data| > 0 then [script[0].data] else [])
      + (if script[0].failed then [] else Payloads(script[1..]))
  }

  /** The replies left unread: those after the first one with an error. */
  function Remaining(script: seq<ReadReply>): seq<ReadReply> {
    if |script| == 0 then []
    else if script[0].failed then script[1..]
    else Remaining(script[1..])
  }

  /** All the bytes the reader produced, up to and including the first reply
      that came with an error. */
  function Produced(script: seq<ReadReply>): Bytes {
    if |script| == 0 then []
    else script[0].data + (if script[0].failed then [] else Produced(script[1..]))
  }

  /** The concatenation of a sequence of chunks. */
  function Flatten(chunks: seq<Bytes>): Bytes {
    if |chunks| == 0 then [] else chunks[0] + Flatten(chunks[1..])
  }

  /** Whether the Read that gets the first reply of `script` ends the loop:
      it came with an error, or the script was used up (io.EOF). */
  predicate Stops(script: seq<ReadReply>) {
    |script| == 0 || script[0].failed
  }

  /** The chunk sent for the first reply of `script`: none when it holds no bytes. */
  function FirstChunk(script: seq<ReadReply>): seq<Bytes> {
    if |script| == 0 || |script[0].data| == 0 then [] else [script[0].data]
  }

  lemma PayloadsUnfold(script: seq<ReadReply>)
    ensures Payloads(script) == FirstChunk(script) + (if Stops(script) then [] else Payloads(script[1..]))
  {
    if |script| == 0 {
      assert FirstChunk(script) + [] == [];
    }
  }

  lemma {:induction false} ChunkedAppend(a: seq<Bytes>, b: seq<Bytes>)
    ensures Chunked(a + b) == Chunked(a) + Chunked(b)
    decreases |a|
  {
    if |a| == 0 {
      assert a + b == b;
    } else {
      assert (a + b)[1..] == a[1..] + b;
      ChunkedAppend(a[1..], b);
      Assoc(ChunkFrame(a[0]), Chunked(a[1..]), Chunked(b));
    }
  }

  /** One turn of the send loop: a Read into a fresh CHUNK_SIZE buffer, and
      the chunk of what it returned, if it returned any bytes. */
  method RelayOnce(conn: Connection, src: Source) returns (failed: bool)
    requires FitsBuffer(src.replies)
    requires conn != src as object
    modifies conn`sent, src
    ensures failed == Stops(old(src.replies))
    ensures src.replies == if |old(src.replies)| == 0 then [] else old(src.replies)[1..]
    ensures FitsBuffer(src.replies)
    ensures conn.sent == old(conn.sent) + (if conn.closed then [] else Chunked(FirstChunk(old(src.replies))))
  {
    var buf := new Byte[CHUNK_SIZE];
    var nr;
    nr, failed := src.Read(buf);
    if nr > 0 {
      var _ := conn.SendChunk(buf[0..nr]);
      assert Chunked(FirstChunk(old(src.replies))) == ChunkFrame(buf[..nr]) + Chunked([]);
    } else {
      assert FirstChunk(old(src.replies)) == [];
    }
  }

  /** The send loop of ScanStream. Write errors of the command and of the
      chunks are ignored; only the terminator's write error is reported. */
  method ScanStream(conn: Connection, src: Source) returns (r: Outcome<seq<ScanResult>>)
    requires FitsBuffer(src.replies)
    requires conn != src as object
    modifies conn, src
    ensures conn.sent == old(conn.sent) +
      (if old(conn.closed) then [] else CommandFrame(INSTREAM) + Chunked(Payloads(old(src.replies))) + EOF_MARKER)
    ensures src.replies == Remaining(old(src.replies))
    ensures r == if old(conn.closed) then Err(WriteError) else Ok(Responses(old(conn.incoming)))
  {
    var _ := conn.SendCommand(INSTREAM);
    ghost var base := conn.sent;
    ghost var script := src.replies;
    ghost var chunks: seq<Bytes> := [];
    while true
      invariant conn.closed == old(conn.closed) && conn.incoming == old(conn.incoming)
      invariant conn.closed ==> conn.sent == base
      invariant !conn.closed ==> conn.sent == base + Chunked(chunks)
      invariant FitsBuffer(src.replies)
      invariant Payloads(script) == chunks + Payloads(src.replies)
      invariant Remaining(script) == Remaining(src.replies)
      decreases |src.replies|
    {
      ghost var current := src.replies;
      var failed := RelayOnce(conn, src);
      ghost var step := FirstChunk(current);
      PayloadsUnfold(current);
      ChunkedAppend(chunks, step);
      Assoc(base, Chunked(chunks), Chunked(step));
      if failed {
        assert Payloads(script) == chunks + step;
        chunks := chunks + step;
        break;
      }
      Assoc(chunks, step, Payloads(src.replies));
      chunks := chunks + step;
    }
    assert Payloads(script) == chunks;
    var ok := conn.SendEOF();
    if !ok {
      return Err(WriteError);
    }
    ghost var frame, body := CommandFrame(INSTREAM), Chunked(chunks);
    Assoc(base, body, EOF_MARKER);
    Assoc(old(conn.sent), frame, body + EOF_MARKER);
    Assoc(frame, body, EOF_MARKER);
    var results := conn.ReadResponse();
    conn.Close();
    r := Ok(results);
  }

  /** No chunk is empty, so none is read as the terminator, and none is longer
      than the buffer. */
  lemma {:induction false} PayloadsBounded(script: seq<ReadReply>)
    requires FitsBuffer(script)
    ensures forall i | 0 <= i < |Payloads(script)| :: 0 < |Payloads(script)[i]| <= CHUNK_SIZE
  {
    if |script| > 0 {
      PayloadsBounded(script[1..]);
    }
  }

  lemma FlattenAppend(a: seq<Bytes>, b: seq<Bytes>)
    ensures Flatten(a + b) == Flatten(a) + Flatten(b)
    decreases |a|
  {
    if |a| > 0 {
      assert (a + b)[1..] == a[1..] + b;
      FlattenAppend(a[1..], b);
    } else {
      assert a + b == b;
    }
  }

  /** The chunks hold exactly the bytes the reader produced, in order: the
      empty replies are skipped and nothing else is lost or added. */
  lemma {:induction false} PayloadsFlatten(script: seq<ReadReply>)
    ensures Flatten(Payloads(script)) == Produced(script)
  {
    if |script| > 0 {
      var d := script[0].data;
      var first: seq<Bytes> := if |d| > 0 then [d] else [];
      var rest: seq<Bytes> := if script[0].failed then [] else Payloads(script[1..]);
      FlattenAppend(first, rest);
      assert Flatten(first) == d by {
        if |d| > 0 {
          assert Flatten([d]) == d + Flatten([]);
        }
      }
      if !script[0].failed {
        PayloadsFlatten(script[1..]);
      }
    }
  }

  /** The daemon's reading of what ScanStream sends: the INSTREAM command,
      then exactly the chunks, then whatever follows the terminator. */
  lemma StreamOnWire(script: seq<ReadReply>, rest: Bytes)
    requires FitsBuffer(script)
    ensures ReadCommand(CommandFrame(INSTREAM) + Chunked(Payloads(script)) + EOF_MARKER + rest)
      == Some((INSTREAM, Chunked(Payloads(script)) + EOF_MARKER + rest))
    ensures ReadChunks(Chunked(Payloads(script)) + EOF_MARKER + rest) == Some((Payloads(script), rest))
  {
    var body := Chunked(Payloads(script)) + EOF_MARKER + rest;
    assert !Contains(INSTREAM, '\n');
    ReadCommandFrame(INSTREAM, body);
    assert CommandFrame(INSTREAM) + Chunked(Payloads(script)) + EOF_MARKER + rest == CommandFrame(INSTREAM) + body;
    PayloadsBounded(script);
    ReadChunkedStream(Payloads(script), rest);
  }

  /** A reader that fills every buffer it is given, as bytes.Reader does:
      full buffers, then the short remainder, then no bytes and io.EOF. */
  function FullReader(d: Bytes): (script: seq<ReadReply>)
    ensures FitsBuffer(script)
    decreases |d|
  {
    if |d| == 0 then [ReadReply([], true)]
    else if |d| <= CHUNK_SIZE then [ReadReply(d, false)] + FullReader([])
    else [ReadReply(d[..CHUNK_SIZE], false)] + FullReader(d[CHUNK_SIZE..])
  }

  /** From such a reader, every chunk but the last is full, and there are
      ceil(|d| / CHUNK_SIZE) chunks that together are `d`. */
  lemma {:induction false} FullReaderChunks(d: Bytes)
    ensures |Payloads(FullReader(d))| == (|d| + CHUNK_SIZE - 1) / CHUNK_SIZE
    ensures forall i | 0 <= i < |Payloads(FullReader(d))| - 1 :: |Payloads(FullReader(d))[i]| == CHUNK_SIZE
    ensures Flatten(Payloads(FullReader(d))) == d
    decreases |d|
  {
    var s := FullReader(d);
    PayloadsFlatten(s);
    if |d| == 0 {
    } else if |d| <= CHUNK_SIZE {
      assert Payloads(s) == [d] + Payloads(s[1..]);
      assert s[1..] == FullReader([]);
      assert Produced(s) == d + Produced(FullReader([]));
    } else {
      var tail := d[CHUNK_SIZE..];
      FullReaderChunks(tail);
      assert s[1..] == FullReader(tail);
      assert Payloads(s) == [d[..CHUNK_SIZE]] + Payloads(FullReader(tail));
      assert Produced(s) == d[..CHUNK_SIZE] + Produced(FullReader(tail));
      assert d == d[..CHUNK_SIZE] + tail;
    }
  }

  /** 2500 bytes from such a reader go out as chunks of 1024, 1024 and 452 bytes. */
  lemma TwentyFiveHundredBytes(d: Bytes)
    requires |d| == 2500
    ensures |Payloads(FullReader(d))| == 3
    ensures |Payloads(FullReader(d))[0]| == 1024
    ensures |Payloads(FullReader(d))[1]| == 1024
    ensures |Payloads(FullReader(d))[2]| == 452
  {
    FullReaderChunks(d);
    var p := Payloads(FullReader(d));
    FlattenAppend([p[0], p[1]], [p[2]]);
    assert p == [p[0], p[1]] + [p[2]];
    FlattenAppend([p[0]], [p[1]]);
    assert [p[0], p[1]] == [p[0]] + [p[1]];
    assert Flatten([p[2]]) == p[2] + Flatten([]);
    assert Flatten([p[1]]) == p[1] + Flatten([]);
    assert Flatten([p[0]]) == p[0] + Flatten([]);
  }
}
