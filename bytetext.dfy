/** Byte strings as the client sees them, and the few string operations of Go's
    `strings` and `strconv` packages that the protocol engine uses.

    A Go `string` and a `[]byte` are both sequences of bytes; the model uses one
    type for both. A byte is written as the character with the same code, so that
    ASCII literals such as "PONG" read as they do in the source. */
module ByteText {

  /** One byte: a character whose code is below 256. */
  type Byte = c: char | c as int < 256

  /** A Go string or byte slice. */
  type Bytes = seq<Byte>

  /** The byte with value `n`, as Go's `byte(n)` conversion gives for 0 <= n < 256. */
  function ByteOf(n: int): (b: Byte)
    requires 0 <= n < 256
    ensures b as int == n
  {
    n as char
  }

  /** Concatenation is associative; stated once so that proofs can name the
      regrouping they need. */
  lemma Assoc<T>(a: seq<T>, b: seq<T>, c: seq<T>)
    ensures (a + b) + c == a + (b + c)
  {
  }

  /** strings.HasPrefix */
  predicate HasPrefix(s: Bytes, p: Bytes) {
    |p| <= |s| && s[..|p|] == p
  }

  predicate Contains(s: Bytes, b: Byte) {
    exists i | 0 <= i < |s| :: s[i] == b
  }

  /** The index of the first occurrence of `b` in `s`, if any. */
  function FirstIndex(s: Bytes, b: Byte): (r: Option<nat>)
    ensures r.None? <==> !Contains(s, b)
    ensures r.Some? ==> r.value < |s| && s[r.value] == b
    ensures r.Some? ==> forall i | 0 <= i < r.value :: s[i] != b
  {
    if |s| == 0 then None
    else if s[0] == b then Some(0)
    else
      match FirstIndex(s[1..], b)
      case None => None
      case Some(k) => Some(k + 1)
  }

  /** The index of the last occurrence of `b` in `s`, if any. */
  function LastIndex(s: Bytes, b: Byte): (r: Option<nat>)
    ensures r.None? <==> !Contains(s, b)
    ensures r.Some? ==> r.value < |s| && s[r.value] == b
    ensures r.Some? ==> forall i | r.value < i < |s| :: s[i] != b
  {
    if |s| == 0 then None
    else if s[|s| - 1] == b then Some(|s| - 1)
    else LastIndex(s[..|s| - 1], b)
  }

  /** The first occurrence is found where it is. */
  lemma FirstIndexAt(s: Bytes, b: Byte, j: nat)
    requires j < |s| && s[j] == b
    requires forall i | 0 <= i < j :: s[i] != b
    ensures FirstIndex(s, b) == Some(j)
  {
    assert Contains(s, b);
  }

  /** The last occurrence is found where it is. */
  lemma LastIndexAt(s: Bytes, b: Byte, j: nat)
    requires j < |s| && s[j] == b
    requires forall i | j < i < |s| :: s[i] != b
    ensures LastIndex(s, b) == Some(j)
  {
    assert Contains(s, b);
  }

  /** The bytes that readResponse strips from the end of a line: " \t\r\n". */
  predicate IsLineSpace(b: Byte) {
    b == ' ' || b == '\t' || b == '\r' || b == '\n'
  }

  /** strings.TrimLineSpace(s, " \t\r\n"): the longest prefix of `s` that does not
      end in a line-space byte, such that only line-space bytes were removed. */
  function TrimLineSpace(s: Bytes): (r: Bytes)
    ensures |r| <= |s| && r == s[..|r|]
    ensures |r| > 0 ==> !IsLineSpace(r[|r| - 1])
    ensures forall i | |r| <= i < |s| :: IsLineSpace(s[i])
  {
    if |s| > 0 && IsLineSpace(s[|s| - 1]) then TrimLineSpace(s[..|s| - 1]) else s
  }

  /** strings.TrimLeft(s, " "): the longest suffix of `s` that does not start
      with a space, such that only spaces were removed. */
  function TrimLeftSpaces(s: Bytes): (r: Bytes)
    ensures |r| <= |s| && r == s[|s| - |r|..]
    ensures |r| > 0 ==> r[0] != ' '
    ensures forall i | 0 <= i < |s| - |r| :: s[i] == ' '
  {
    if |s| > 0 && s[0] == ' ' then TrimLeftSpaces(s[1..]) else s
  }

  /** strings.TrimLineSpace(s, " "): the longest prefix of `s` that does not end
      with a space, such that only spaces were removed. */
  function TrimRightSpaces(s: Bytes): (r: Bytes)
    ensures |r| <= |s| && r == s[..|r|]
    ensures |r| > 0 ==> r[|r| - 1] != ' '
    ensures forall i | |r| <= i < |s| :: s[i] == ' '
  {
    if |s| > 0 && s[|s| - 1] == ' ' then TrimRightSpaces(s[..|s| - 1]) else s
  }

  /** `s` is `r` with spaces before it (the first `k` bytes) and after it. */
  predicate SpacesAround(s: Bytes, r: Bytes, k: int) {
    0 <= k <= |s| - |r| && s[k..k + |r|] == r &&
    (forall i | 0 <= i < k :: s[i] == ' ') && (forall i | k + |r| <= i < |s| :: s[i] == ' ')
  }

  /** strings.Trim(s, " "): `s` with the spaces at both ends removed; what is
      left neither starts nor ends with a space. */
  function TrimSpaces(s: Bytes): (r: Bytes)
    ensures |r| > 0 ==> r[0] != ' ' && r[|r| - 1] != ' '
    ensures exists k :: SpacesAround(s, r, k)
  {
    var l := TrimLeftSpaces(s);
    var r := TrimRightSpaces(l);
    var k := |s| - |l|;
    assert s[k..k + |r|] == r by {
      assert l == s[k..];
      assert r == l[..|r|];
    }
    assert forall i | k + |r| <= i < |s| :: s[i] == ' ' by {
      forall i | k + |r| <= i < |s| ensures s[i] == ' ' {
        assert s[i] == l[i - k];
      }
    }
    assert SpacesAround(s, r, k);
    r
  }

  predicate IsDigit(b: Byte) {
    '0' <= b <= '9'
  }

  predicate AllDigits(s: Bytes) {
    forall i | 0 <= i < |s| :: IsDigit(s[i])
  }

  /** The value of a string of decimal digits. */
  function DecimalValue(s: Bytes): nat
    requires AllDigits(s)
  {
    if |s| == 0 then 0
    else DecimalValue(s[..|s| - 1]) * 10 + (s[|s| - 1] as int - '0' as int)
  }

  /** The decimal digits of `n`, without leading zeros (strconv.Itoa). */
  function Decimal(n: nat): (r: Bytes)
    ensures |r| > 0 && AllDigits(r)
  {
    if n < 10 then [ByteOf('0' as int + n)]
    else Decimal(n / 10) + [ByteOf('0' as int + n % 10)]
  }

  lemma {:induction false} DecimalValueOfDecimal(n: nat)
    ensures DecimalValue(Decimal(n)) == n
  {
    var r := Decimal(n);
    if n >= 10 {
      DecimalValueOfDecimal(n / 10);
      assert r[..|r| - 1] == Decimal(n / 10);
    }
  }

  /** The largest value of Go's `int` on a 64-bit platform. */
  const MAX_INT: int := 0x7FFF_FFFF_FFFF_FFFF

  /** strconv.Atoi applied to a non-empty string of decimal digits: the value,
      or None (a range error) when it does not fit a 64-bit `int`. */
  function Atoi(s: Bytes): (r: Option<int>)
    requires |s| > 0 && AllDigits(s)
    ensures r.Some? <==> DecimalValue(s) <= MAX_INT
    ensures r.Some? ==> 0 <= r.value == DecimalValue(s)
  {
    var v := DecimalValue(s);
    if v <= MAX_INT then Some(v) else None
  }

  datatype Option<+T> = None | Some(value: T)
}
