/** What readResponse (conn.go) makes of the bytes the daemon sends: each
    newline-terminated line, with trailing " \t\r\n" removed, parsed into one
    record, in order. A last fragment without a newline is dropped, because
    ReadString returns it together with io.EOF and the loop then stops. */
module Lines {
  import opened ByteText
  import opened Response

  /** The lines of the daemon's bytes `s` that readResponse parses, each with
      trailing white space removed; a final fragment without a newline gives
      none. */
  function ReplyLines(s: Bytes): seq<Bytes>
    decreases |s|
  {
    match FirstIndex(s, '\n')
    case None => []
    case Some(k) => [TrimLineSpace(s[..k + 1])] + ReplyLines(s[k + 1..])
  }

  /** The records readResponse emits for the daemon's bytes `s`: the parse of
      each reply line, in order. */
  function Responses(s: Bytes): seq<ScanResult> {
    ParseAll(ReplyLines(s))
  }

  /** The parse of each line, in order. */
  function ParseAll(lines: seq<Bytes>): seq<ScanResult> {
    seq(|lines|, i requires 0 <= i < |lines| => ParseResult(lines[i]))
  }

  /** Parsing one more line adds its record at the end. */
  lemma ParseAllSnoc(lines: seq<Bytes>, line: Bytes)
    ensures ParseAll(lines + [line]) == ParseAll(lines) + [ParseResult(line)]
  {
    var l := lines + [line];
    assert forall i | 0 <= i < |lines| :: l[i] == lines[i];
  }

  /** The bytes of a reply made of the given lines, each ended by a newline. */
  function JoinLines(lines: seq<Bytes>): Bytes {
    if |lines| == 0 then [] else lines[0] + "\n" + JoinLines(lines[1..])
  }

  /** The number of newlines in `s`. */
  function CountNewlines(s: Bytes): nat {
    if |s| == 0 then 0 else (if s[0] == '\n' then 1 else 0) + CountNewlines(s[1..])
  }

  lemma {:induction false} CountNewlinesAppend(a: Bytes, b: Bytes)
    ensures CountNewlines(a + b) == CountNewlines(a) + CountNewlines(b)
  {
    if |a| > 0 {
      assert (a + b)[1..] == a[1..] + b;
      CountNewlinesAppend(a[1..], b);
    } else {
      assert a + b == b;
    }
  }

  lemma {:induction false} NoNewlineCount(s: Bytes)
    requires !Contains(s, '\n')
    ensures CountNewlines(s) == 0
  {
    if |s| > 0 {
      assert !Contains(s[1..], '\n') by {
        forall i | 0 <= i < |s| - 1 ensures s[1..][i] != '\n' { assert s[1..][i] == s[i + 1]; }
      }
      NoNewlineCount(s[1..]);
    }
  }

  lemma {:induction false} ReplyLinesCount(s: Bytes)
    ensures |ReplyLines(s)| == CountNewlines(s)
    decreases |s|
  {
    if !Contains(s, '\n') {
      NoNewlineCount(s);
    } else {
      var k := FirstIndex(s, '\n').value;
      ReplyLinesStep(s, k);
      var body, rest := s[..k], s[k + 1..];
      ReplyLinesCount(rest);
      assert s == body + ("\n" + rest);
      assert !Contains(body, '\n');
      NoNewlineCount(body);
      CountNewlinesAppend(body, "\n" + rest);
      assert ("\n" + rest)[1..] == rest;
    }
  }

  /** One record per newline: the final fragment gives none. */
  lemma ResponsesCount(s: Bytes)
    ensures |Responses(s)| == CountNewlines(s)
  {
    ReplyLinesCount(s);
  }

  /** The line terminator is among the bytes trimmed away. */
  lemma TrimLineSpaceDropsNewline(l: Bytes)
    ensures TrimLineSpace(l + "\n") == TrimLineSpace(l)
  {
    assert (l + "\n")[..|l + "\n"| - 1] == l;
  }

  /** A line without a newline, then its terminator: the first reply line is
      that line, trimmed. */
  lemma ReplyLinesCons(l: Bytes, tail: Bytes)
    requires !Contains(l, '\n')
    ensures ReplyLines(l + "\n" + tail) == [TrimLineSpace(l)] + ReplyLines(tail)
  {
    var ln := l + "\n";
    forall i | 0 <= i < |l| ensures ln[i] != '\n' { assert ln[i] == l[i]; }
    AppendKeepsFirstLine(ln, tail, |l|);
    assert ln[..|l| + 1] == ln;
    assert ln[|l| + 1..] + tail == tail;
    TrimLineSpaceDropsNewline(l);
  }

  lemma {:induction false} ReplyLinesOfLines(lines: seq<Bytes>, fragment: Bytes)
    requires forall i | 0 <= i < |lines| :: !Contains(lines[i], '\n')
    requires !Contains(fragment, '\n')
    ensures |ReplyLines(JoinLines(lines) + fragment)| == |lines|
    ensures forall i | 0 <= i < |lines| :: ReplyLines(JoinLines(lines) + fragment)[i] == TrimLineSpace(lines[i])
  {
    if |lines| == 0 {
      assert JoinLines(lines) + fragment == fragment;
    } else {
      var l, rest := lines[0], JoinLines(lines[1..]);
      Assoc(l + "\n", rest, fragment);
      ReplyLinesCons(l, rest + fragment);
      ReplyLinesOfLines(lines[1..], fragment);
      var r, rt := ReplyLines(JoinLines(lines) + fragment), ReplyLines(rest + fragment);
      assert r == [TrimLineSpace(l)] + rt;
      forall i | 0 <= i < |lines| ensures r[i] == TrimLineSpace(lines[i]) {
        if i > 0 {
          assert r[i] == rt[i - 1];
          assert lines[1..][i - 1] == lines[i];
        }
      }
    }
  }

  /** The records of a reply made of whole lines, followed by any fragment
      without a newline: exactly one per line, in order, each the parse of its
      line with trailing white space removed. */
  lemma ResponsesOfLines(lines: seq<Bytes>, fragment: Bytes)
    requires forall i | 0 <= i < |lines| :: !Contains(lines[i], '\n')
    requires !Contains(fragment, '\n')
    ensures |Responses(JoinLines(lines) + fragment)| == |lines|
    ensures forall i | 0 <= i < |lines| :: Responses(JoinLines(lines) + fragment)[i] == ParseResult(TrimLineSpace(lines[i]))
  {
    ReplyLinesOfLines(lines, fragment);
  }

  /** One step of reading: the first line of `s` ends at its first newline,
      index `k`, and is followed by the lines of what comes after it. */
  lemma ReplyLinesStep(s: Bytes, k: nat)
    requires k < |s| && s[k] == '\n'
    requires forall i | 0 <= i < k :: s[i] != '\n'
    ensures ReplyLines(s) == [TrimLineSpace(s[..k + 1])] + ReplyLines(s[k + 1..])
  {
    FirstIndexAt(s, '\n', k);
  }

  /** Bytes without a newline hold no line. */
  lemma ReplyLinesOfFragment(s: Bytes)
    requires forall i | 0 <= i < |s| :: s[i] != '\n'
    ensures ReplyLines(s) == []
  {
  }

  /** Appending after a line leaves that line, and its position, as they were. */
  lemma AppendKeepsFirstLine(a: Bytes, b: Bytes, k: nat)
    requires k < |a| && a[k] == '\n'
    requires forall i | 0 <= i < k :: a[i] != '\n'
    ensures ReplyLines(a + b) == [TrimLineSpace(a[..k + 1])] + ReplyLines(a[k + 1..] + b)
  {
    var ab := a + b;
    forall i | 0 <= i < k ensures ab[i] != '\n' {
      assert ab[i] == a[i];
    }
    ReplyLinesStep(ab, k);
    assert ab[..k + 1] == a[..k + 1];
    assert ab[k + 1..] == a[k + 1..] + b;
  }

  /** Reading the line that ends at `end` moves the split point of the
      reader's input past it. */
  lemma ReadLineStep(data: Bytes, pos: nat, end: nat, lines: seq<Bytes>)
    requires pos <= end < |data| && data[end] == '\n'
    requires forall i | pos <= i < end :: data[i] != '\n'
    requires lines + ReplyLines(data[pos..]) == ReplyLines(data)
    ensures (lines + [TrimLineSpace(data[pos..end + 1])]) + ReplyLines(data[end + 1..]) == ReplyLines(data)
  {
    ReplyLinesAt(data, pos, end);
    Assoc(lines, [TrimLineSpace(data[pos..end + 1])], ReplyLines(data[end + 1..]));
  }

  lemma ReplyLinesAt(data: Bytes, pos: nat, end: nat)
    requires pos <= end < |data| && data[end] == '\n'
    requires forall i | pos <= i < end :: data[i] != '\n'
    ensures ReplyLines(data[pos..]) == [TrimLineSpace(data[pos..end + 1])] + ReplyLines(data[end + 1..])
  {
    var s := data[pos..];
    FirstIndexAt(s, '\n', end - pos);
    assert s[..end - pos + 1] == data[pos..end + 1];
    assert s[end - pos + 1..] == data[end + 1..];
  }

  /** Once only a fragment without a newline is left, every line has been read. */
  lemma ReadFragmentStep(data: Bytes, pos: nat, lines: seq<Bytes>)
    requires pos <= |data|
    requires forall i | pos <= i < |data| :: data[i] != '\n'
    requires lines + ReplyLines(data[pos..]) == ReplyLines(data)
    ensures lines == ReplyLines(data)
  {
    var s := data[pos..];
    ReplyLinesOfFragment(s);
    assert lines + [] == lines;
  }

  lemma {:induction false} ReplyLinesAppend(a: Bytes, b: Bytes)
    requires |a| == 0 || a[|a| - 1] == '\n'
    ensures ReplyLines(a + b) == ReplyLines(a) + ReplyLines(b)
    decreases |a|
  {
    if |a| == 0 {
      assert a + b == b;
    } else {
      assert Contains(a, '\n') by { assert a[|a| - 1] == '\n'; }
      var k := FirstIndex(a, '\n').value;
      ReplyLinesStep(a, k);
      AppendKeepsFirstLine(a, b, k);
      var rest := a[k + 1..];
      assert |rest| == 0 || rest[|rest| - 1] == '\n' by {
        if |rest| > 0 { assert rest[|rest| - 1] == a[|a| - 1]; }
      }
      ReplyLinesAppend(rest, b);
      Assoc([TrimLineSpace(a[..k + 1])], ReplyLines(rest), ReplyLines(b));
    }
  }

}
