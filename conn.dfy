/** CLAMDConn in conn.go: one connection to the daemon. The socket is modelled
    as the bytes written to it so far (`sent`), the bytes the daemon will send
    back before it ends its side (`incoming`), and whether the connection has
    been closed (`closed`); once closed, every write and read fails. */
module Conn {
  import opened ByteText
  import opened Response
  import opened Framing
  import opened Lines

  class Connection {
    var sent: Bytes
    var incoming: Bytes
    var closed: bool

    /** A freshly dialed connection whose daemon will answer with `reply`. */
    constructor (reply: Bytes)
      ensures sent == [] && incoming == reply && !closed
    {
      sent := [];
      incoming := reply;
      closed := false;
    }

    /** net.Conn.Close */
    method Close()
      modifies this`closed
      ensures closed
    {
      closed := true;
    }

    /** net.Conn.Write: all of `data` goes out, or, on a closed connection,
        nothing does and an error is returned. */
    method Write(data: Bytes) returns (ok: bool)
      modifies this`sent
      ensures ok == !closed
      ensures sent == if closed then old(sent) else old(sent) + data
    {
      if closed {
        ok := false;
      } else {
        sent := sent + data;
        ok := true;
      }
    }

    /** sendCommand: writes "n" + command + "\n". */
    method SendCommand(command: Bytes) returns (ok: bool)
      modifies this`sent
      ensures ok == !closed
      ensures sent == old(sent) + (if closed then [] else CommandFrame(command))
    {
      ok := Write("n" + command + "\n");
    }

    /** sendEOF: writes the four zero bytes that end a stream. */
    method SendEOF() returns (ok: bool)
      modifies this`sent
      ensures ok == !closed
      ensures sent == old(sent) + (if closed then [] else EOF_MARKER)
    {
      ok := Write(['\0', '\0', '\0', '\0']);
    }

    /** sendChunk: builds the 4-byte big-endian length in a buffer, copies it,
        writes it (ignoring that write's error), then writes the data and
        reports the error of that second write. */
    method SendChunk(data: Bytes) returns (ok: bool)
      modifies this`sent
      ensures ok == !closed
      ensures sent == old(sent) + (if closed then [] else ChunkFrame(data))
    {
      var lenData := |data|;
      var buf := new Byte[4];
      buf[0] := ByteOf(lenData / 0x100_0000 % 256);
      buf[1] := ByteOf(lenData / 0x1_0000 % 256);
      buf[2] := ByteOf(lenData / 0x100 % 256);
      buf[3] := ByteOf(lenData % 256);
      assert buf[..] == Header(lenData);
      var b := new Byte[4];
      for i := 0 to 4
        invariant buf[..] == Header(lenData)
        invariant sent == old(sent)
        invariant forall j | 0 <= j < i :: b[j] == buf[j]
      {
        b[i] := buf[i];
      }
      assert b[..] == Header(lenData);
      var header := b[..];
      var _ := Write(header);
      ok := Write(data);
      Assoc(old(sent), header, data);
    }

    /** The scan of bufio.Reader.ReadString('\n') from `pos`: the index of
        the next newline, or |data| when there is none. */
    static method FindNewline(data: Bytes, pos: nat) returns (end: nat)
      requires pos <= |data|
      ensures pos <= end <= |data|
      ensures end < |data| ==> data[end] == '\n'
      ensures forall i | pos <= i < end :: data[i] != '\n'
    {
      end := pos;
      while end < |data| && data[end] != '\n'
        invariant pos <= end <= |data|
        invariant forall i | pos <= i < end :: data[i] != '\n'
      {
        end := end + 1;
      }
    }

    /** One line of readResponse: the line that ends at the newline at `end`
        is trimmed, parsed and appended to the records read so far. */
    static method EmitLine(data: Bytes, pos: nat, end: nat, ghost lines: seq<Bytes>, results: seq<ScanResult>)
      returns (next: seq<ScanResult>)
      requires pos <= end < |data| && data[end] == '\n'
      requires forall i | pos <= i < end :: data[i] != '\n'
      requires lines + ReplyLines(data[pos..]) == ReplyLines(data)
      requires results == ParseAll(lines)
      ensures next == ParseAll(lines + [TrimLineSpace(data[pos..end + 1])])
      ensures (lines + [TrimLineSpace(data[pos..end + 1])]) + ReplyLines(data[end + 1..]) == ReplyLines(data)
    {
      var trimmed := TrimLineSpace(data[pos..end + 1]);
      ReadLineStep(data, pos, end, lines);
      ParseAllSnoc(lines, trimmed);
      next := results + [ParseResult(trimmed)];
    }

    /** readResponse: reads newline-terminated lines until the input ends or
        a read fails, and emits the parse of each trimmed line, in order.
        The final fragment that ReadString returns with io.EOF is dropped. On
        a closed connection the first read fails and nothing is emitted. */
    method ReadResponse() returns (results: seq<ScanResult>)
      modifies this`incoming
      ensures results == if closed then [] else Responses(old(incoming))
      ensures incoming == if closed then old(incoming) else []
    {
      results := [];
      if closed {
        return;
      }
      var data := incoming;
      ghost var lines: seq<Bytes> := [];
      var pos := 0;
      while true
        invariant 0 <= pos <= |data|
        invariant lines + ReplyLines(data[pos..]) == ReplyLines(data)
        invariant results == ParseAll(lines)
        decreases |data| - pos
      {
        var end := FindNewline(data, pos);
        if end == |data| {
          // io.EOF: the fragment is dropped and the loop ends
          ReadFragmentStep(data, pos, lines);
          break;
        }
        results := EmitLine(data, pos, end, lines, results);
        lines := lines + [TrimLineSpace(data[pos..end + 1])];
        pos := end + 1;
        assert data[pos..] == data[end + 1..];
      }
      incoming := [];
    }
  }
}
