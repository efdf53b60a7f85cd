/** One line of the daemon's reply turned into a scan result (parseResult in
    conn.go). The source matches the line against the anchored regular
    expression

      ^(?P<path>[^:]+): ((?P<desc>[^:]+)(\((?P<virhash>([^:]+)):(?P<virsize>\d+)\))? )?(?P<status>FOUND|ERROR|OK)$

    with leftmost-first (backtracking-order) submatch semantics. The model
    writes the language of that expression as data (`Captures`, `Render`,
    `WellFormed`), matches it by hand (`Match`), and proves that the matcher
    and the grammar agree in both directions. */
module Response {
  import opened ByteText

  /** The status words of a result (RES_* in clamd.go). */
  const RES_OK: Bytes := "OK"
  const RES_FOUND: Bytes := "FOUND"
  const RES_ERROR: Bytes := "ERROR"
  const RES_PARSE_ERROR: Bytes := "PARSE ERROR"

  /** The description of a line that does not match the grammar. */
  const NO_MATCHES: Bytes := "Regex had no matches"
  /** The prefix of the description given to a matched line whose status word is unknown. */
  const INVALID_STATUS: Bytes := "Invalid status field: "

  /** ScanResult in clamd.go. */
  datatype ScanResult = ScanResult(
    raw: Bytes,
    description: Bytes,
    path: Bytes,
    hash: Bytes,
    size: int,
    status: Bytes)

  predicate IsStatusWord(s: Bytes) {
    s == RES_OK || s == RES_FOUND || s == RES_ERROR
  }

  predicate NoColon(s: Bytes) {
    !Contains(s, ':')
  }

  predicate EndsWith(s: Bytes, w: Bytes) {
    |w| <= |s| && s[|s| - |w|..] == w
  }

  /** What the line says between "<path>: " and the status word. */
  datatype Detail =
    | Bare                                               // "<path>: <status>"
    | Described(desc: Bytes)                             // "<path>: <desc> <status>"
    | Signed(desc: Bytes, hash: Bytes, digits: Bytes)    // "<path>: <desc>(<hash>:<digits>) <status>"

  /** The submatches of a successful match. */
  datatype Captures = Captures(path: Bytes, detail: Detail, status: Bytes)

  function RenderDetail(d: Detail): Bytes {
    match d
    case Bare => []
    case Described(desc) => desc + " "
    case Signed(desc, hash, digits) => desc + "(" + hash + ":" + digits + ") "
  }

  /** The line made of the given submatches. */
  function Render(c: Captures): Bytes {
    c.path + ": " + RenderDetail(c.detail) + c.status
  }

  /** The constraints the expression puts on each group. The one on `hash`
      comes from leftmost-first matching: `desc` is greedy, so it runs to the
      last '(' that still leaves a non-empty hash before the colon; a hash can
      therefore hold a '(' only as its last byte. */
  predicate WellFormedDetail(d: Detail) {
    match d
    case Bare => true
    case Described(desc) => |desc| > 0 && NoColon(desc)
    case Signed(desc, hash, digits) =>
      |desc| > 0 && NoColon(desc) &&
      |hash| > 0 && NoColon(hash) && (forall i | 0 <= i < |hash| - 1 :: hash[i] != '(') &&
      |digits| > 0 && AllDigits(digits)
  }

  predicate WellFormed(c: Captures) {
    |c.path| > 0 && NoColon(c.path) && WellFormedDetail(c.detail) && IsStatusWord(c.status)
  }

  lemma EndsWithLast(s: Bytes, w: Bytes)
    requires EndsWith(s, w) && |w| > 0
    ensures s[|s| - 1] == w[|w| - 1]
  {
    assert s[|s| - |w|..][|w| - 1] == w[|w| - 1];
  }

  /** The status word that `s` ends with. The three words end in different
      bytes, so at most one of them is a suffix. */
  function StatusSuffix(s: Bytes): (r: Option<Bytes>)
    ensures r.Some? ==> IsStatusWord(r.value) && EndsWith(s, r.value)
    ensures forall w | IsStatusWord(w) && EndsWith(s, w) :: r == Some(w)
  {
    if EndsWith(s, RES_OK) then
      EndsWithLast(s, RES_OK);
      assert !EndsWith(s, RES_FOUND) by { if EndsWith(s, RES_FOUND) { EndsWithLast(s, RES_FOUND); } }
      assert !EndsWith(s, RES_ERROR) by { if EndsWith(s, RES_ERROR) { EndsWithLast(s, RES_ERROR); } }
      Some(RES_OK)
    else if EndsWith(s, RES_FOUND) then
      EndsWithLast(s, RES_FOUND);
      assert !EndsWith(s, RES_ERROR) by { if EndsWith(s, RES_ERROR) { EndsWithLast(s, RES_ERROR); } }
      Some(RES_FOUND)
    else if EndsWith(s, RES_ERROR) then Some(RES_ERROR)
    else None
  }

  /** Splits "<path>: <rest>", where the path is the non-empty text before the
      first colon (`[^:]+` followed by ": "). */
  function SplitPath(line: Bytes): (r: Option<(Bytes, Bytes)>)
    ensures r.Some? ==> |r.value.0| > 0 && NoColon(r.value.0) && line == r.value.0 + ": " + r.value.1
  {
    match FirstIndex(line, ':')
    case None => None
    case Some(colon) =>
      if colon == 0 || colon + 1 >= |line| || line[colon + 1] != ' ' then None
      else
        assert NoColon(line[..colon]) by {
          forall i | 0 <= i < colon ensures line[..colon][i] != ':' { assert line[..colon][i] == line[i]; }
        }
        assert line == line[..colon] + ": " + line[colon + 2..];
        Some((line[..colon], line[colon + 2..]))
  }

  lemma SplitPathComplete(path: Bytes, rest: Bytes)
    requires |path| > 0 && NoColon(path)
    ensures SplitPath(path + ": " + rest) == Some((path, rest))
  {
    var line := path + ": " + rest;
    forall i | 0 <= i < |path| ensures line[i] != ':' {
      assert line[i] == path[i];
    }
    FirstIndexAt(line, ':', |path|);
    assert line[..|path|] == path;
    assert line[|path| + 2..] == rest;
  }

  /** Splits "<body><status>", where the status word ends the line (`(FOUND|ERROR|OK)$`). */
  function SplitStatus(rest: Bytes): (r: Option<(Bytes, Bytes)>)
    ensures r.Some? ==> IsStatusWord(r.value.1) && rest == r.value.0 + r.value.1
  {
    match StatusSuffix(rest)
    case None => None
    case Some(status) =>
      var body := rest[..|rest| - |status|];
      assert rest == body + status;
      Some((body, status))
  }

  lemma SplitStatusComplete(body: Bytes, w: Bytes)
    requires IsStatusWord(w)
    ensures SplitStatus(body + w) == Some((body, w))
  {
    var rest := body + w;
    assert rest[|rest| - |w|..] == w;
    assert StatusSuffix(rest) == Some(w);
    assert rest[..|rest| - |w|] == body;
  }

  lemma NoColonConcat(a: Bytes, b: Bytes)
    ensures NoColon(a + b) <==> NoColon(a) && NoColon(b)
  {
    if !NoColon(a) {
      var i :| 0 <= i < |a| && a[i] == ':';
      assert (a + b)[i] == ':';
    }
    if !NoColon(b) {
      var i :| 0 <= i < |b| && b[i] == ':';
      assert (a + b)[|a| + i] == ':';
    }
  }

  /** Splits "<desc>(<hash>", the text before the colon of a signature group:
      greedy `desc` takes everything up to the last '(' that leaves a
      non-empty hash behind it. */
  function SplitHash(pre: Bytes): (r: Option<(Bytes, Bytes)>)
    ensures r.Some? ==> |r.value.0| > 0 && |r.value.1| > 0 && pre == r.value.0 + "(" + r.value.1
    ensures r.Some? ==> forall i | 0 <= i < |r.value.1| - 1 :: r.value.1[i] != '('
  {
    if |pre| < 2 then None
    else
      match LastIndex(pre[..|pre| - 1], '(')
      case None => None
      case Some(k) =>
        if k == 0 then None
        else
          var hash := pre[k + 1..];
          assert forall i | 0 <= i < |hash| - 1 :: hash[i] != '(' by {
            forall i | 0 <= i < |hash| - 1 ensures hash[i] != '(' {
              assert hash[i] == pre[..|pre| - 1][k + 1 + i];
            }
          }
          assert pre == pre[..k] + "(" + hash;
          Some((pre[..k], hash))
  }

  lemma SplitHashComplete(desc: Bytes, hash: Bytes)
    requires |desc| > 0 && |hash| > 0
    requires forall i | 0 <= i < |hash| - 1 :: hash[i] != '('
    ensures SplitHash(desc + "(" + hash) == Some((desc, hash))
  {
    var pre := desc + "(" + hash;
    var front := pre[..|pre| - 1];
    forall i | |desc| < i < |front| ensures front[i] != '(' {
      assert front[i] == hash[i - |desc| - 1];
    }
    LastIndexAt(front, '(', |desc|);
    assert pre[..|desc|] == desc;
    assert pre[|desc| + 1..] == hash;
  }

  /** Splits "<digits>)", the text after the colon of a signature group (`\d+\)`). */
  function SplitDigits(after: Bytes): (r: Option<Bytes>)
    ensures r.Some? ==> |r.value| > 0 && AllDigits(r.value) && after == r.value + ")"
  {
    if |after| < 2 || after[|after| - 1] != ')' || !AllDigits(after[..|after| - 1]) then None
    else
      assert after == after[..|after| - 1] + ")";
      Some(after[..|after| - 1])
  }

  lemma SplitDigitsComplete(digits: Bytes)
    requires |digits| > 0 && AllDigits(digits)
    ensures SplitDigits(digits + ")") == Some(digits)
  {
    var after := digits + ")";
    assert after[..|after| - 1] == digits;
  }

  /** Matches `t`, the text between ": " and the space before the status word,
      against `(?P<desc>[^:]+)(\((?P<virhash>[^:]+):(?P<virsize>\d+)\))?`. */
  function MatchDetail(t: Bytes): (r: Option<Detail>)
    ensures r.Some? ==> r.value != Bare && WellFormedDetail(r.value) && RenderDetail(r.value) == t + " "
  {
    if |t| == 0 then None
    else
      match FirstIndex(t, ':')
      case None => Some(Described(t))
      case Some(colon) =>
        match SplitHash(t[..colon])
        case None => None
        case Some((desc, hash)) =>
          match SplitDigits(t[colon + 1..])
          case None => None
          case Some(digits) =>
            assert NoColon(t[..colon]) by {
              forall i | 0 <= i < colon ensures t[..colon][i] != ':' { assert t[..colon][i] == t[i]; }
            }
            NoColonConcat(desc, "(" + hash);
            NoColonConcat("(", hash);
            assert t == t[..colon] + ":" + t[colon + 1..];
            Some(Signed(desc, hash, digits))
  }

  /** Matches the optional group `(<desc>(<hash>:<digits>)? )?` against the
      whole of `body`. */
  function MatchBody(body: Bytes): (r: Option<Detail>)
    ensures r.Some? ==> WellFormedDetail(r.value) && RenderDetail(r.value) == body
  {
    if |body| == 0 then Some(Bare)
    else if body[|body| - 1] != ' ' then None
    else
      assert body == body[..|body| - 1] + " ";
      MatchDetail(body[..|body| - 1])
  }

  /** The whole-line match of the expression, if there is one. Soundness: what
      it returns is well formed and renders back to the line. */
  function Match(line: Bytes): (r: Option<Captures>)
    ensures r.Some? ==> WellFormed(r.value) && Render(r.value) == line
  {
    var sp := SplitPath(line);
    if sp.None? then None
    else
      var path, rest := sp.value.0, sp.value.1;
      var ss := SplitStatus(rest);
      if ss.None? then None
      else
        var body, status := ss.value.0, ss.value.1;
        var md := MatchBody(body);
        if md.None? then None
        else
          Assoc(path + ": ", body, status);
          Some(Captures(path, md.value, status))
  }

  /** The texts of the named groups desc, virhash and virsize; a group that
      took no part in the match gives "". */
  function DescGroup(d: Detail): Bytes {
    match d
    case Bare => []
    case Described(desc) => desc
    case Signed(desc, _, _) => desc
  }

  function HashGroup(d: Detail): Bytes {
    if d.Signed? then d.hash else []
  }

  function SizeGroup(d: Detail): Bytes {
    if d.Signed? then d.digits else []
  }

  /** The virsize group converted by strconv.Atoi; on an error (an empty group,
      or a value beyond a 64-bit int) the size stays 0. */
  function SizeOf(digits: Bytes): (n: int)
    requires AllDigits(digits)
    ensures n >= 0
    ensures n > 0 ==> |digits| > 0 && n == DecimalValue(digits)
  {
    if |digits| == 0 then 0
    else
      match Atoi(digits)
      case Some(v) => v
      case None => 0
  }

  /** The loop over the named groups of parseResult: path, desc, virhash and
      virsize are stored, then the status word is checked. */
  function FromCaptures(line: Bytes, c: Captures): ScanResult
    requires AllDigits(SizeGroup(c.detail))
  {
    var desc := DescGroup(c.detail);
    var hash := HashGroup(c.detail);
    var size := SizeOf(SizeGroup(c.detail));
    if c.status == RES_OK || c.status == RES_FOUND || c.status == RES_ERROR then
      ScanResult(line, desc, c.path, hash, size, c.status)
    else
      ScanResult(line, INVALID_STATUS + c.status, c.path, hash, size, RES_PARSE_ERROR)
  }

  /** parseResult: never fails, and always keeps the line it was given. */
  function ParseResult(line: Bytes): (r: ScanResult)
    ensures r.raw == line
    ensures r.size >= 0
  {
    match Match(line)
    case None => ScanResult(line, NO_MATCHES, [], [], 0, RES_PARSE_ERROR)
    case Some(c) => FromCaptures(line, c)
  }

  // ---------------------------------------------------------------------------
  // The matcher agrees with the grammar.

  lemma MatchDetailComplete(d: Detail)
    requires WellFormedDetail(d) && d != Bare
    ensures MatchDetail(RenderDetail(d)[..|RenderDetail(d)| - 1]) == Some(d)
  {
    var r := RenderDetail(d);
    var t := r[..|r| - 1];
    match d
    case Described(desc) =>
      assert t == desc;
    case Signed(desc, hash, digits) =>
      var pre := desc + "(" + hash;
      assert t == pre + ":" + (digits + ")");
      NoColonConcat(desc, "(" + hash);
      NoColonConcat("(", hash);
      forall i | 0 <= i < |pre| ensures t[i] != ':' {
        assert t[i] == pre[i];
      }
      FirstIndexAt(t, ':', |pre|);
      assert t[..|pre|] == pre;
      assert t[|pre| + 1..] == digits + ")";
      SplitHashComplete(desc, hash);
      SplitDigitsComplete(digits);
  }

  lemma MatchBodyComplete(d: Detail)
    requires WellFormedDetail(d)
    ensures MatchBody(RenderDetail(d)) == Some(d)
  {
    if d != Bare {
      MatchDetailComplete(d);
    }
  }

  /** Completeness: every well-formed set of submatches is found again in the line it renders. */
  lemma MatchComplete(c: Captures)
    requires WellFormed(c)
    ensures Match(Render(c)) == Some(c)
  {
    var rest := RenderDetail(c.detail) + c.status;
    assert Render(c) == c.path + ": " + rest;
    SplitPathComplete(c.path, rest);
    SplitStatusComplete(RenderDetail(c.detail), c.status);
    MatchBodyComplete(c.detail);
  }

  /** A line matches exactly when it is the rendering of some well-formed submatches. */
  lemma MatchIffGrammar(line: Bytes)
    ensures Match(line).Some? <==> exists c :: WellFormed(c) && Render(c) == line
  {
    if exists c :: WellFormed(c) && Render(c) == line {
      var c :| WellFormed(c) && Render(c) == line;
      MatchComplete(c);
    }
  }

  // ---------------------------------------------------------------------------
  // What parseResult makes of a line.

  /** The record parseResult gives for a line that matches with submatches `c`. */
  function Expected(line: Bytes, c: Captures): (r: ScanResult)
    requires WellFormed(c)
  {
    ScanResult(line, DescGroup(c.detail), c.path, HashGroup(c.detail), SizeOf(SizeGroup(c.detail)), c.status)
  }

  /** A line of the grammar gives back the submatches it was made of. */
  lemma {:induction false} ParseRendered(c: Captures)
    requires WellFormed(c)
    ensures ParseResult(Render(c)) == Expected(Render(c), c)
  {
    MatchComplete(c);
  }

  /** A line outside the grammar gives the PARSE ERROR record and nothing
      else; a line inside it never does, so the "Invalid status field" branch
      of parseResult is unreachable. */
  lemma {:induction false} ParseErrorExactly(line: Bytes)
    ensures ParseResult(line).status == RES_PARSE_ERROR <==> !exists c :: WellFormed(c) && Render(c) == line
    ensures ParseResult(line).status == RES_PARSE_ERROR ==>
      ParseResult(line) == ScanResult(line, NO_MATCHES, [], [], 0, RES_PARSE_ERROR)
  {
    MatchIffGrammar(line);
  }

  /** A matched line is reassembled from its record: the path (non-empty, no
      colon), the description, the "(hash:digits)" group exactly when the hash
      is non-empty, and the status word, which ends the line. Without that
      group the size is 0. */
  lemma {:induction false} ParsedLineReassembles(line: Bytes)
    requires ParseResult(line).status != RES_PARSE_ERROR
    ensures var r := ParseResult(line);
      |r.path| > 0 && NoColon(r.path) && IsStatusWord(r.status) && EndsWith(line, r.status)
    ensures var r := ParseResult(line);
      r.hash == [] ==>
        r.size == 0 &&
        line == Render(Captures(r.path, if r.description == [] then Bare else Described(r.description), r.status))
    ensures var r := ParseResult(line);
      r.hash != [] ==>
        exists digits | |digits| > 0 && AllDigits(digits) ::
          r.size == SizeOf(digits) && line == Render(Captures(r.path, Signed(r.description, r.hash, digits), r.status))
  {
    var c := Match(line).value;
    var r := ParseResult(line);
    assert r == Expected(line, c);
    assert line == c.path + ": " + RenderDetail(c.detail) + c.status;
    assert line[|line| - |c.status|..] == c.status;
    match c.detail
    case Bare =>
      assert r.description == [];
    case Described(desc) =>
      assert r.description == desc;
    case Signed(desc, hash, digits) =>
      assert r.size == SizeOf(digits);
      assert Captures(r.path, Signed(r.description, r.hash, digits), r.status) == c;
  }

  /** "<path>: OK" (as for "/tmp/file: OK"): a clean file, with no
      description, hash or size. */
  lemma {:induction false} ParseCleanFile(path: Bytes)
    requires |path| > 0 && NoColon(path)
    ensures ParseResult(path + ": OK") == ScanResult(path + ": OK", [], path, [], 0, RES_OK)
  {
    var c := Captures(path, Bare, RES_OK);
    assert Render(c) == path + ": OK";
    ParseRendered(c);
  }

  /** "<path>: <name>(<hash>:<n>) FOUND" (as for "/tmp/file:
      Eicar-Test-Signature(abcd1234:68) FOUND"): a detection whose size is the
      number written in the line. */
  lemma {:induction false} ParseInfectedFile(path: Bytes, name: Bytes, hash: Bytes, n: nat)
    requires |path| > 0 && NoColon(path) && |name| > 0 && NoColon(name)
    requires |hash| > 0 && NoColon(hash) && !Contains(hash, '(')
    requires n <= MAX_INT
    ensures var line := path + ": " + name + "(" + hash + ":" + Decimal(n) + ") FOUND";
      ParseResult(line) == ScanResult(line, name, path, hash, n, RES_FOUND)
  {
    var line := path + ": " + name + "(" + hash + ":" + Decimal(n) + ") FOUND";
    var c := Captures(path, Signed(name, hash, Decimal(n)), RES_FOUND);
    assert Render(c) == line;
    DecimalValueOfDecimal(n);
    ParseRendered(c);
  }

  /** A size group too large for a 64-bit int makes strconv.Atoi fail: the
      record keeps its hash, and its size stays 0. */
  lemma {:induction false} ParseOversizedSize(c: Captures)
    requires WellFormed(c) && c.detail.Signed? && DecimalValue(c.detail.digits) > MAX_INT
    ensures ParseResult(Render(c)).hash == c.detail.hash
    ensures ParseResult(Render(c)).size == 0
  {
    ParseRendered(c);
  }

  /** "<path>: <name> FOUND": FOUND does not imply a hash, because the
      signature group is optional. */
  lemma {:induction false} ParseFoundWithoutHash(path: Bytes, name: Bytes)
    requires |path| > 0 && NoColon(path) && |name| > 0 && NoColon(name)
    ensures var line := path + ": " + name + " FOUND";
      ParseResult(line) == ScanResult(line, name, path, [], 0, RES_FOUND)
  {
    var c := Captures(path, Described(name), RES_FOUND);
    assert Render(c) == path + ": " + name + " FOUND";
    ParseRendered(c);
  }

  /** A line that starts with a colon, or whose first colon is not followed by
      a space, is a parse error. */
  lemma {:induction false} ParsePathErrors(path: Bytes, rest: Bytes)
    requires NoColon(path)
    requires |path| == 0 || |rest| == 0 || rest[0] != ' '
    ensures ParseResult(path + ":" + rest).status == RES_PARSE_ERROR
  {
    var line := path + ":" + rest;
    forall i | 0 <= i < |path| ensures line[i] != ':' {
      assert line[i] == path[i];
    }
    FirstIndexAt(line, ':', |path|);
  }
}
