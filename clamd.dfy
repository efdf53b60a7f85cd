/** The Clamd client of clamd.go: the choice of transport from the daemon's
    address, the commands it sends, and the checks it makes of the replies.

    The client methods take a Connection that has already been dialed to the
    endpoint ChooseEndpoint names; dialing itself is not modelled. */
module Clamd {
  import opened ByteText
  import opened Response
  import opened Framing
  import opened Lines
  import opened Conn
  import opened ClamdStats

  /** The parts of a parsed URL that newConnection looks at. */
  datatype Url = Url(scheme: Bytes, host: Bytes, path: Bytes)

  /** Where newConnection dials: a TCP host, or a Unix socket path. */
  datatype Endpoint = TcpEndpoint(host: Bytes) | UnixEndpoint(path: Bytes)

  /** The errors the client reports. */
  datatype ClientError =
    | UrlError                        // url.Parse rejected the address
    | WriteError                      // a write to the connection failed
    | InvalidResponse(got: ScanResult) // "Invalid response, got ..."

  datatype Outcome<T> = Ok(value: T) | Err(error: ClientError)

  /** newConnection's dispatch on the address, given what url.Parse made of
      it (None when url.Parse failed): scheme "tcp" dials the URL's host,
      scheme "unix" the URL's path, and any other scheme the whole address as
      a Unix socket path. */
  function ChooseEndpoint(address: Bytes, parsed: Option<Url>): (r: Outcome<Endpoint>)
    ensures r.Err? <==> parsed.None?
    ensures r.Err? ==> r.error == UrlError
    ensures r.Ok? && r.value.TcpEndpoint? <==> parsed.Some? && parsed.value.scheme == "tcp"
    ensures r.Ok? && r.value.TcpEndpoint? ==> r.value.host == parsed.value.host
    ensures r.Ok? && r.value.UnixEndpoint? ==>
      r.value.path == if parsed.value.scheme == "unix" then parsed.value.path else address
  {
    match parsed
    case None => Err(UrlError)
    case Some(u) =>
      if u.scheme == "tcp" then Ok(TcpEndpoint(u.host))
      else if u.scheme == "unix" then Ok(UnixEndpoint(u.path))
      else Ok(UnixEndpoint(address))
  }

  /** An address whose scheme is neither tcp nor unix, such as a bare socket
      path, is dialed exactly as written. */
  lemma OtherSchemeDialsAddress(address: Bytes, u: Url)
    requires u.scheme != "tcp" && u.scheme != "unix"
    ensures ChooseEndpoint(address, Some(u)) == Ok(UnixEndpoint(address))
  {
  }

  const PING: Bytes := "PING"
  const PONG: Bytes := "PONG"
  const RELOAD: Bytes := "RELOAD"
  const RELOADING: Bytes := "RELOADING"
  const STATS: Bytes := "STATS"

  /** The five ways of scanning a path on the daemon's file system. */
  datatype ScanKind = Scan | RawScan | MultiScan | ContScan | AllMatchScan

  function Verb(k: ScanKind): (v: Bytes)
    ensures |v| > 0 && !Contains(v, ' ') && !Contains(v, '\n')
  {
    match k
    case Scan => "SCAN"
    case RawScan => "RAWSCAN"
    case MultiScan => "MULTISCAN"
    case ContScan => "CONTSCAN"
    case AllMatchScan => "ALLMATCHSCAN"
  }

  /** fmt.Sprintf("<VERB> %s", path) */
  function ScanCommand(k: ScanKind, path: Bytes): Bytes {
    Verb(k) + " " + path
  }

  /** A scan command splits at its first space into the verb and the path. */
  lemma ScanCommandSplits(k: ScanKind, path: Bytes)
    ensures FirstIndex(ScanCommand(k, path), ' ') == Some(|Verb(k)|)
    ensures ScanCommand(k, path)[..|Verb(k)|] == Verb(k)
    ensures ScanCommand(k, path)[|Verb(k)| + 1..] == path
  {
    var v, c := Verb(k), ScanCommand(k, path);
    forall i | 0 <= i < |v| ensures c[i] != ' ' {
      assert c[i] == v[i];
    }
    FirstIndexAt(c, ' ', |v|);
    assert c[..|v|] == v;
    assert c[|v| + 1..] == path;
  }

  /** Different kinds or different paths give different commands. */
  lemma ScanCommandInjective(k1: ScanKind, p1: Bytes, k2: ScanKind, p2: Bytes)
    requires ScanCommand(k1, p1) == ScanCommand(k2, p2)
    ensures k1 == k2 && p1 == p2
  {
    ScanCommandSplits(k1, p1);
    ScanCommandSplits(k2, p2);
    assert Verb(k1) == Verb(k2);
  }

  /** On the wire a scan of a path without a newline is
      "n" + verb + " " + path + "\n", and the daemon reads that command back
      whole, leaving what follows untouched. */
  lemma ScanCommandOnWire(k: ScanKind, path: Bytes, rest: Bytes)
    requires !Contains(path, '\n')
    ensures CommandFrame(ScanCommand(k, path)) == "n" + Verb(k) + " " + path + "\n"
    ensures ReadCommand(CommandFrame(ScanCommand(k, path)) + rest) == Some((ScanCommand(k, path), rest))
  {
    var v, c := Verb(k), ScanCommand(k, path);
    assert !Contains(c, '\n') by {
      forall i | 0 <= i < |c| ensures c[i] != '\n' {
        if i < |v| {
          assert c[i] == v[i];
        } else if i > |v| {
          assert c[i] == path[i - |v| - 1];
        }
      }
    }
    ReadCommandFrame(c, rest);
  }

  /** The check Ping and Reload make of the first record of the reply: its
      raw line must be exactly the acknowledgement. */
  function CheckAck(results: seq<ScanResult>, ack: Bytes): (r: Outcome<()>)
    requires |results| > 0
  {
    if results[0].raw == ack then Ok(()) else Err(InvalidResponse(results[0]))
  }

  /** In terms of the daemon's bytes: the reply is accepted exactly when its
      first line, less trailing white space, is the acknowledgement; otherwise
      the error carries the parse of that line. */
  lemma AckOfReply(line: Bytes, rest: Bytes, ack: Bytes)
    requires !Contains(line, '\n')
    ensures |Responses(line + "\n" + rest)| > 0
    ensures CheckAck(Responses(line + "\n" + rest), ack).Ok? <==> TrimLineSpace(line) == ack
    ensures CheckAck(Responses(line + "\n" + rest), ack).Err? ==>
      CheckAck(Responses(line + "\n" + rest), ack).error == InvalidResponse(ParseResult(TrimLineSpace(line)))
  {
    var s := line + "\n" + rest;
    forall i | 0 <= i < |line| ensures s[i] != '\n' {
      assert s[i] == line[i];
    }
    ReplyLinesStep(s, |line|);
    assert s[..|line| + 1] == line + "\n";
    TrimLineSpaceDropsNewline(line);
  }

  /** simpleCommand: sends the command, then reads the whole reply; the
      connection is closed once the reply has been read. A failed write is
      reported and nothing is read. */
  method SimpleCommand(conn: Connection, command: Bytes) returns (r: Outcome<seq<ScanResult>>)
    modifies conn
    ensures conn.sent == old(conn.sent) + (if old(conn.closed) then [] else CommandFrame(command))
    ensures r == if old(conn.closed) then Err(WriteError) else Ok(Responses(old(conn.incoming)))
    ensures conn.closed
  {
    var ok := conn.SendCommand(command);
    if !ok {
      return Err(WriteError);
    }
    var results := conn.ReadResponse();
    conn.Close();
    r := Ok(results);
  }

  /** Ping: PING must be answered by PONG. The first record is read without
      a check that there is one, so the reply must hold a line. */
  method Ping(conn: Connection) returns (r: Outcome<()>)
    requires !conn.closed ==> |Responses(conn.incoming)| > 0
    modifies conn
    ensures conn.sent == old(conn.sent) + (if old(conn.closed) then [] else CommandFrame(PING))
    ensures r == if old(conn.closed) then Err(WriteError) else CheckAck(Responses(old(conn.incoming)), PONG)
  {
    var results := SimpleCommand(conn, PING);
    if results.Err? {
      return Err(results.error);
    }
    r := CheckAck(results.value, PONG);
  }

  /** Reload: RELOAD must be answered by RELOADING. */
  method Reload(conn: Connection) returns (r: Outcome<()>)
    requires !conn.closed ==> |Responses(conn.incoming)| > 0
    modifies conn
    ensures conn.sent == old(conn.sent) + (if old(conn.closed) then [] else CommandFrame(RELOAD))
    ensures r == if old(conn.closed) then Err(WriteError) else CheckAck(Responses(old(conn.incoming)), RELOADING)
  {
    var results := SimpleCommand(conn, RELOAD);
    if results.Err? {
      return Err(results.error);
    }
    r := CheckAck(results.value, RELOADING);
  }

  /** Stats: STATS, then the fold of the reply into a Stats record. */
  method GetStats(conn: Connection) returns (r: Outcome<Stats>)
    requires !conn.closed ==> PoolsLinesFit(Responses(conn.incoming))
    modifies conn
    ensures conn.sent == old(conn.sent) + (if old(conn.closed) then [] else CommandFrame(STATS))
    ensures r.Err? <==> old(conn.closed)
    ensures r.Err? ==> r.error == WriteError
    ensures r.Ok? ==> fresh(r.value) && r.value.View() == Fold(Responses(old(conn.incoming)))
  {
    var results := SimpleCommand(conn, STATS);
    if results.Err? {
      return Err(results.error);
    }
    var stats := CollectStats(results.value);
    r := Ok(stats);
  }

  /** ScanFile, RawScanFile, MultiScanFile, ContScanFile and AllMatchScanFile. */
  method ScanPath(conn: Connection, k: ScanKind, path: Bytes) returns (r: Outcome<seq<ScanResult>>)
    modifies conn
    ensures conn.sent == old(conn.sent) + (if old(conn.closed) then [] else CommandFrame(ScanCommand(k, path)))
    ensures r == if old(conn.closed) then Err(WriteError) else Ok(Responses(old(conn.incoming)))
  {
    r := SimpleCommand(conn, ScanCommand(k, path));
  }
}
