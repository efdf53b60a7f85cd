/** The bytes the client writes to the daemon (sendCommand, sendChunk and
    sendEOF in conn.go), and the reading of those bytes on the daemon's side,
    which shows that the framing can be taken apart again. */
module Framing {
  import opened ByteText

  /** CHUNK_SIZE in conn.go: the buffer size used when relaying a stream. */
  const CHUNK_SIZE: nat := 1024

  /** 2^32: chunk lengths are sent as 32-bit unsigned integers. */
  const LENGTH_MODULUS: nat := 0x1_0000_0000

  /** The zero-length chunk that ends a stream (sendEOF). */
  const EOF_MARKER: Bytes := ['\0', '\0', '\0', '\0']

  /** The frame of one command: the marker byte 'n', the command, a newline. */
  function CommandFrame(command: Bytes): Bytes {
    "n" + command + "\n"
  }

  /** The daemon's reading of a command frame: after the 'n' marker, the
      command runs to the first newline. Gives the command and what follows. */
  function ReadCommand(s: Bytes): Option<(Bytes, Bytes)> {
    if |s| == 0 || s[0] != 'n' then None
    else
      match FirstIndex(s[1..], '\n')
      case None => None
      case Some(k) => Some((s[1..][..k], s[1..][k + 1..]))
  }

  /** A command without a newline is read back whole, and the bytes after its
      frame are left untouched. */
  lemma {:induction false} ReadCommandFrame(command: Bytes, rest: Bytes)
    requires !Contains(command, '\n')
    ensures ReadCommand(CommandFrame(command) + rest) == Some((command, rest))
  {
    var s := CommandFrame(command) + rest;
    var t := s[1..];
    assert t == command + "\n" + rest;
    forall i | 0 <= i < |command| ensures t[i] != '\n' {
      assert t[i] == command[i];
    }
    assert Contains(t, '\n') by { assert t[|command|] == '\n'; }
    assert FirstIndex(t, '\n') == Some(|command|);
    assert t[..|command|] == command;
    assert t[|command| + 1..] == rest;
  }

  /** The 4-byte length prefix of sendChunk: byte(n >> 24), byte(n >> 16),
      byte(n >> 8), byte(n). Each byte() keeps the low 8 bits. */
  function Header(n: nat): Bytes {
    [ByteOf(n / 0x100_0000 % 256), ByteOf(n / 0x1_0000 % 256), ByteOf(n / 0x100 % 256), ByteOf(n % 256)]
  }

  /** The value of a 4-byte big-endian unsigned integer. */
  function HeaderValue(h: Bytes): (n: nat)
    requires |h| == 4
    ensures n < LENGTH_MODULUS
  {
    (h[0] as int) * 0x100_0000 + (h[1] as int) * 0x1_0000 + (h[2] as int) * 0x100 + (h[3] as int)
  }

  /** Division by 2^8, 2^16 and 2^24, given the quotient and remainder. */
  lemma DivideBy8Bits(x: int, q: int, r: int)
    requires 0 <= r < 0x100 && x == q * 0x100 + r
    ensures x / 0x100 == q && x % 0x100 == r
  {
  }

  lemma DivideBy16Bits(x: int, q: int, r: int)
    requires 0 <= r < 0x1_0000 && x == q * 0x1_0000 + r
    ensures x / 0x1_0000 == q && x % 0x1_0000 == r
  {
  }

  lemma DivideBy24Bits(x: int, q: int, r: int)
    requires 0 <= r < 0x100_0000 && x == q * 0x100_0000 + r
    ensures x / 0x100_0000 == q && x % 0x100_0000 == r
  {
  }

  /** Each byte of the header of `n` is the same byte of `n` modulo 2^32. */
  lemma HighByteModulo(n: nat)
    ensures n / 0x100_0000 % 256 == (n % 0x1_0000_0000) / 0x100_0000
  {
    var c, r := n / 0x1_0000_0000, n % 0x1_0000_0000;
    var a, b := r / 0x100_0000, r % 0x100_0000;
    DivideBy24Bits(n, c * 0x100 + a, b);
    DivideBy8Bits(c * 0x100 + a, c, a);
  }

  lemma SecondByteModulo(n: nat)
    ensures n / 0x1_0000 % 256 == (n % 0x1_0000_0000) / 0x1_0000 % 256
  {
    var c, r := n / 0x1_0000_0000, n % 0x1_0000_0000;
    var a, b := r / 0x1_0000, r % 0x1_0000;
    DivideBy16Bits(n, c * 0x1_0000 + a, b);
    DivideBy8Bits(c * 0x1_0000 + a, c * 0x100 + a / 0x100, a % 0x100);
  }

  lemma ThirdByteModulo(n: nat)
    ensures n / 0x100 % 256 == (n % 0x1_0000_0000) / 0x100 % 256
  {
    var c, r := n / 0x1_0000_0000, n % 0x1_0000_0000;
    var a, b := r / 0x100, r % 0x100;
    DivideBy8Bits(n, c * 0x100_0000 + a, b);
    DivideBy8Bits(c * 0x100_0000 + a, c * 0x1_0000 + a / 0x100, a % 0x100);
  }

  lemma LowByteModulo(n: nat)
    ensures n % 256 == (n % 0x1_0000_0000) % 256
  {
    var c, r := n / 0x1_0000_0000, n % 0x1_0000_0000;
    DivideBy8Bits(n, c * 0x100_0000 + r / 0x100, r % 0x100);
  }

  lemma BigEndianDigits(m: nat)
    requires m < LENGTH_MODULUS
    ensures m == (m / 0x100_0000) * 0x100_0000 + (m / 0x1_0000 % 256) * 0x1_0000 + (m / 0x100 % 256) * 0x100 + m % 256
  {
    var q1, r0 := m / 0x100, m % 0x100;
    var q2, r1 := q1 / 0x100, q1 % 0x100;
    var q3, r2 := q2 / 0x100, q2 % 0x100;
    DivideBy8Bits(m, q1, r0);
    DivideBy16Bits(m, q2, r1 * 0x100 + r0);
    DivideBy24Bits(m, q3, r2 * 0x1_0000 + r1 * 0x100 + r0);
  }

  /** The prefix encodes the length modulo 2^32; a length below 2^32 is read
      back exactly. */
  lemma HeaderRoundTrip(n: nat)
    ensures |Header(n)| == 4
    ensures HeaderValue(Header(n)) == n % LENGTH_MODULUS
  {
    var m, h := n % LENGTH_MODULUS, Header(n);
    HighByteModulo(n);
    SecondByteModulo(n);
    ThirdByteModulo(n);
    LowByteModulo(n);
    assert h[0] as int == m / 0x100_0000;
    assert h[1] as int == m / 0x1_0000 % 256;
    assert h[2] as int == m / 0x100 % 256;
    assert h[3] as int == m % 256;
    BigEndianDigits(m);
  }

  /** Every 4-byte prefix is the header of exactly one length below 2^32. */
  lemma HeaderOfValue(h: Bytes)
    requires |h| == 4
    ensures Header(HeaderValue(h)) == h
  {
    var n := HeaderValue(h);
    var b0, b1, b2, b3 := h[0] as int, h[1] as int, h[2] as int, h[3] as int;
    DivideBy8Bits(n, b0 * 0x1_0000 + b1 * 0x100 + b2, b3);
    DivideBy8Bits(b0 * 0x1_0000 + b1 * 0x100 + b2, b0 * 0x100 + b1, b2);
    DivideBy16Bits(n, b0 * 0x100 + b1, b2 * 0x100 + b3);
    DivideBy8Bits(b0 * 0x100 + b1, b0, b1);
    DivideBy24Bits(n, b0, b1 * 0x1_0000 + b2 * 0x100 + b3);
    DivideBy8Bits(b0, 0, b0);
  }

  /** The end-of-stream marker is the header sendChunk writes for empty data. */
  lemma EofMarkerIsEmptyHeader()
    ensures Header(0) == EOF_MARKER
  {
  }

  /** The bytes sendChunk writes for `data`. */
  function ChunkFrame(data: Bytes): Bytes {
    Header(|data|) + data
  }

  /** The frames of a sequence of chunks, in order. */
  function Chunked(payloads: seq<Bytes>): Bytes {
    if |payloads| == 0 then [] else ChunkFrame(payloads[0]) + Chunked(payloads[1..])
  }

  /** The daemon's reading of a chunked stream: chunks up to the zero-length
      terminator. Gives the payloads and what follows the terminator. */
  function ReadChunks(s: Bytes): Option<(seq<Bytes>, Bytes)>
    decreases |s|
  {
    if |s| < 4 then None
    else
      var n := HeaderValue(s[..4]);
      if n == 0 then Some(([], s[4..]))
      else if |s| < 4 + n then None
      else
        match ReadChunks(s[4 + n..])
        case None => None
        case Some((payloads, rest)) => Some(([s[4..4 + n]] + payloads, rest))
  }

  /** The length prefix of a chunk frame is read back as the chunk's length. */
  lemma ReadLengthPrefix(p: Bytes, tail: Bytes)
    requires |p| < LENGTH_MODULUS
    ensures |ChunkFrame(p) + tail| >= 4 && HeaderValue((ChunkFrame(p) + tail)[..4]) == |p|
  {
    HeaderRoundTrip(|p|);
    assert (ChunkFrame(p) + tail)[..4] == Header(|p|);
  }

  /** One non-empty chunk frame is read as that chunk, then reading goes on
      right after it. */
  lemma ReadChunkFrame(p: Bytes, tail: Bytes)
    requires 0 < |p| < LENGTH_MODULUS
    ensures ReadChunks(ChunkFrame(p) + tail) ==
      match ReadChunks(tail)
      case None => None
      case Some((payloads, rest)) => Some(([p] + payloads, rest))
  {
    var s := ChunkFrame(p) + tail;
    ReadLengthPrefix(p, tail);
    var n := |p|;
    assert s[4..4 + n] == p;
    assert s[4 + n..] == tail;
  }

  /** Chunks that are all non-empty and shorter than 2^32 bytes, followed by
      the terminator, are read back as exactly those chunks. */
  lemma {:induction false} ReadChunkedStream(payloads: seq<Bytes>, rest: Bytes)
    requires forall i | 0 <= i < |payloads| :: 0 < |payloads[i]| < LENGTH_MODULUS
    ensures ReadChunks(Chunked(payloads) + EOF_MARKER + rest) == Some((payloads, rest))
  {
    if |payloads| == 0 {
      var s := EOF_MARKER + rest;
      assert Chunked(payloads) + EOF_MARKER + rest == s;
      assert s[..4] == EOF_MARKER;
      assert s[4..] == rest;
    } else {
      var p := payloads[0];
      var tail := Chunked(payloads[1..]) + EOF_MARKER + rest;
      ReadChunkedStream(payloads[1..], rest);
      ReadChunkFrame(p, tail);
      Assoc(ChunkFrame(p), Chunked(payloads[1..]), EOF_MARKER);
      Assoc(ChunkFrame(p), Chunked(payloads[1..]) + EOF_MARKER, rest);
      assert Chunked(payloads) + EOF_MARKER + rest == ChunkFrame(p) + tail;
      assert [p] + payloads[1..] == payloads;
    }
  }

  /** A zero-length data chunk would be read as the terminator: what follows
      it is no longer taken as stream data. */
  lemma EmptyChunkEndsStream(rest: Bytes)
    ensures ReadChunks(ChunkFrame([]) + rest) == Some(([], rest))
  {
    var s := ChunkFrame([]) + rest;
    assert s[..4] == EOF_MARKER;
    assert s[4..] == rest;
  }
}
