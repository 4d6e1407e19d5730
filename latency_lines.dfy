/**
 * The measurement file format shared by the histogram and percentile
 * scripts: one `ttc ttfb` pair of integers per line, read into three
 * parallel columns (ttcs, ttfbs, deltas) in line order.
 */
module LatencyLines {
  import opened Wrappers
  import opened Text

  /** One input line: time to connect and time to first byte, in nanoseconds. */
  datatype Sample = Sample(ttc: int, ttfb: int)

  /** Why `Integer(...)` raised on a line. */
  datatype LineError =
    | MissingToken              // Integer(nil): the line has fewer than two tokens (TypeError)
    | NotAnInteger(token: string) // Integer(tok) on a token that is no integer (ArgumentError)

  /** The first line that raised while reading, counted from 0, and what it raised. */
  datatype LineFailure = LineFailure(line: nat, error: LineError)

  /** The three parallel arrays the scripts fill: `ttcs`, `ttfbs` and `deltas`. */
  datatype Columns = Columns(ttcs: seq<int>, ttfbs: seq<int>, deltas: seq<int>)

  /** `Integer(x)` where `x` is a token of the line or `nil` when the line ran out of tokens. */
  function ToInteger(token: Option<string>): Result<int, LineError> {
    match token
    case None => Failure(MissingToken)
    case Some(t) =>
      match ParseInteger(t)
      case None => Failure(NotAnInteger(t))
      case Some(n) => Success(n)
  }

  /** The k-th element of an array, `nil` past its end. */
  function TokenAt(tokens: seq<string>, k: nat): Option<string> {
    if k < |tokens| then Some(tokens[k]) else None
  }

  /**
   * `ttc, ttfb = line.strip.split(/\s+/)` followed by `Integer(ttc)` and then
   * `Integer(ttfb)`: only the first two tokens are looked at, and the ttc
   * token is converted (and can raise) first.
   */
  function ParseLine(line: string): Result<Sample, LineError> {
    var tokens := Tokens(line);
    var ttc :- ToInteger(TokenAt(tokens, 0));
    var ttfb :- ToInteger(TokenAt(tokens, 1));
    Success(Sample(ttc, ttfb))
  }

  /** A blank line (nothing but whitespace) has no token, so `Integer(nil)` raises. */
  lemma BlankLineRaises(line: string)
    requires forall i :: 0 <= i < |line| ==> IsStripped(line[i])
    ensures ParseLine(line) == Failure(MissingToken)
  {
    assert Strip(line) == [];
  }

  /**
   * A line parses exactly when its first two tokens are integers, and then
   * the sample holds those two values; any further token is ignored.
   */
  lemma ParseLineSpec(line: string)
    ensures ParseLine(line).Success? <==>
      |Tokens(line)| >= 2 && ParseInteger(Tokens(line)[0]).Some? && ParseInteger(Tokens(line)[1]).Some?
    ensures ParseLine(line).Success? ==>
      ParseLine(line).value == Sample(ParseInteger(Tokens(line)[0]).value, ParseInteger(Tokens(line)[1]).value)
  {
  }

  /**
   * What a line that does not parse raises: the ttc token is looked at
   * first, so a bad first token wins over a missing or bad second one.
   */
  lemma ParseLineErrors(line: string)
    ensures |Tokens(line)| == 0 ==> ParseLine(line) == Failure(MissingToken)
    ensures |Tokens(line)| >= 1 && ParseInteger(Tokens(line)[0]).None? ==>
      ParseLine(line) == Failure(NotAnInteger(Tokens(line)[0]))
    ensures |Tokens(line)| == 1 && ParseInteger(Tokens(line)[0]).Some? ==>
      ParseLine(line) == Failure(MissingToken)
    ensures |Tokens(line)| >= 2 && ParseInteger(Tokens(line)[0]).Some? && ParseInteger(Tokens(line)[1]).None? ==>
      ParseLine(line) == Failure(NotAnInteger(Tokens(line)[1]))
  {
  }

  /**
   * A line made of two printed integers separated by one space parses back to
   * those integers, whatever follows them after whitespace: a newline, more
   * tokens (ignored), trailing blanks. This is the `"%ld %ld\n"` format the
   * load generator prints for each connection.
   */
  lemma ParsePrintedLine(ttc: int, ttfb: int, rest: string)
    requires rest == [] || IsSpace(rest[0])
    ensures ParseLine(ShowInt(ttc) + " " + ShowInt(ttfb) + rest) == Success(Sample(ttc, ttfb))
  {
    var a, b := ShowInt(ttc), ShowInt(ttfb);
    var line := a + " " + b + rest;
    var tail := StripPrinted(a, b, rest);
    TokensAreWords(line);
    WordsOfPrinted(a, b, tail);
    ParseShowInt(ttc);
    ParseShowInt(ttfb);
  }

  /** `strip` leaves a line of two printed integers intact up to what follows them. */
  lemma StripPrinted(a: string, b: string, rest: string) returns (tail: string)
    requires IsWord(a) && IsWord(b) && a[0] != '\0' && b[|b| - 1] != '\0'
    requires rest == [] || IsSpace(rest[0])
    ensures Strip(a + " " + b + rest) == a + " " + b + tail
    ensures tail == [] || IsSpace(tail[0])
  {
    var head := a + " " + b;
    var line := head + rest;
    assert line[0] == a[0];
    assert StripLeft(line) == line;
    assert head[|head| - 1] == b[|b| - 1];
    StripKeepsHead(head, rest);
    var s := StripRight(line);
    tail := s[|head|..];
    assert s == head + tail;
    if tail != [] {
      assert tail[0] == line[|head|] == rest[0];
    }
  }

  /** The words of `a b tail` are `a`, `b`, then the words of `tail`. */
  lemma WordsOfPrinted(a: string, b: string, tail: string)
    requires IsWord(a) && IsWord(b) && (tail == [] || IsSpace(tail[0]))
    ensures |Words(a + " " + b + tail)| >= 2
    ensures Words(a + " " + b + tail)[0] == a && Words(a + " " + b + tail)[1] == b
  {
    var bt := b + tail;
    var t := [' '] + bt;
    var line := a + " " + b + tail;
    AppendAssoc(a + " ", b, tail);
    AppendAssoc(a, " ", bt);
    assert line == a + t;
    WordsCons(a, t);
    WordsSkipSpace(' ', bt);
    WordsCons(b, tail);
    assert Words(line) == [a] + ([b] + Words(tail));
  }

  /** Leading whitespace contributes no field. */
  lemma WordsSkipSpace(c: char, r: string)
    requires IsSpace(c)
    ensures Words([c] + r) == Words(r)
  {
    assert ([c] + r)[1..] == r;
  }

  /** `rstrip` of `head + rest` keeps all of `head` when `head` ends in a kept character. */
  lemma StripKeepsHead(head: string, rest: string)
    requires head != [] && !IsStripped(head[|head| - 1])
    ensures |head| <= |StripRight(head + rest)|
    ensures StripRight(head + rest) == head + StripRight(head + rest)[|head|..]
  {
    var s := head + rest;
    assert s[|head| - 1] == head[|head| - 1];
  }

  /** A word followed by nothing or by whitespace is the first field of the split. */
  lemma WordsCons(w: string, rest: string)
    requires IsWord(w) && (rest == [] || IsSpace(rest[0]))
    ensures Words(w + rest) == [w] + Words(rest)
  {
    var s := w + rest;
    assert forall i :: 0 <= i < |w| ==> s[i] == w[i];
    assert rest != [] ==> s[|w|] == rest[0];
    assert WordLength(s) == |w|;
    assert s[..|w|] == w && s[|w|..] == rest;
  }

  /** The input `"abc 123"` raises on its first token. */
  lemma NonNumericLineRaises()
    ensures ParseLine("abc 123") == Failure(NotAnInteger("abc"))
  {
    var tail := StripPrinted("abc", "123", "");
    assert "abc 123" == "abc" + " " + "123" + "";
    TokensAreWords("abc 123");
    WordsOfPrinted("abc", "123", tail);
    assert ParseInteger("abc") == None;
  }

  // ---------------------------------------------------------------------------
  // Reading all lines of an input
  // ---------------------------------------------------------------------------

  /** What `ParseLine` makes of each line, in order. */
  function ParsedLines(lines: seq<string>): (p: seq<Result<Sample, LineError>>)
    ensures |p| == |lines| && forall i :: 0 <= i < |lines| ==> p[i] == ParseLine(lines[i])
  {
    seq(|lines|, i requires 0 <= i < |lines| => ParseLine(lines[i]))
  }

  /**
   * What the read loop leaves behind after the parsed lines `parsed`: the
   * columns, or the first line that raised. Each line appends `convert(ttc)`
   * and `convert(ttfb)`, then the difference of the two values just appended.
   */
  function Collect(parsed: seq<Result<Sample, LineError>>, convert: int -> int): Result<Columns, LineFailure>
    decreases |parsed|
  {
    if parsed == [] then Success(Columns([], [], []))
    else
      var before :- Collect(parsed[..|parsed| - 1], convert);
      match parsed[|parsed| - 1]
      case Failure(e) => Failure(LineFailure(|parsed| - 1, e))
      case Success(m) =>
        var ttc, ttfb := convert(m.ttc), convert(m.ttfb);
        Success(Columns(before.ttcs + [ttc], before.ttfbs + [ttfb], before.deltas + [ttfb - ttc]))
  }

  /** `read_data`'s loop over all lines of an input. */
  function ReadAll(lines: seq<string>, convert: int -> int): Result<Columns, LineFailure> {
    Collect(ParsedLines(lines), convert)
  }

  /** The delta column is the ttfb column minus the ttc column, entry by entry. */
  ghost predicate WellFormed(c: Columns) {
    |c.ttfbs| == |c.ttcs| && |c.deltas| == |c.ttcs| &&
    forall i :: 0 <= i < |c.deltas| ==> c.deltas[i] == c.ttfbs[i] - c.ttcs[i]
  }

  /**
   * Collecting succeeds exactly when every line parsed; then each column has
   * one entry per line, in line order, and delta i is ttfb i minus ttc i,
   * both after conversion.
   */
  lemma {:induction false} CollectSuccess(parsed: seq<Result<Sample, LineError>>, convert: int -> int)
    ensures Collect(parsed, convert).Success? <==> forall i :: 0 <= i < |parsed| ==> parsed[i].Success?
    ensures Collect(parsed, convert).Success? ==>
      var c := Collect(parsed, convert).value;
      WellFormed(c) && |c.ttcs| == |parsed| &&
      forall i :: 0 <= i < |parsed| ==>
        c.ttcs[i] == convert(parsed[i].value.ttc) && c.ttfbs[i] == convert(parsed[i].value.ttfb)
    decreases |parsed|
  {
    if parsed != [] {
      var init := parsed[..|parsed| - 1];
      CollectSuccess(init, convert);
      assert forall i :: 0 <= i < |init| ==> init[i] == parsed[i];
    }
  }

  /** A failed collection names the first line that raised, and what it raised. */
  lemma {:induction false} CollectFailure(parsed: seq<Result<Sample, LineError>>, convert: int -> int)
    requires Collect(parsed, convert).Failure?
    ensures var f := Collect(parsed, convert).error;
      f.line < |parsed| && parsed[f.line] == Failure(f.error) &&
      forall i :: 0 <= i < f.line ==> parsed[i].Success?
    decreases |parsed|
  {
    var init := parsed[..|parsed| - 1];
    assert forall i :: 0 <= i < |init| ==> init[i] == parsed[i];
    if Collect(init, convert).Failure? {
      CollectFailure(init, convert);
    } else {
      CollectSuccess(init, convert);
    }
  }

  /**
   * Reading succeeds exactly when every line parses. Then each column has one
   * entry per line, in line order, and delta i is ttfb i minus ttc i after
   * conversion. Otherwise the failure names the first line that raised.
   */
  lemma ReadAllSpec(lines: seq<string>, convert: int -> int)
    ensures ReadAll(lines, convert).Success? <==> forall i :: 0 <= i < |lines| ==> ParseLine(lines[i]).Success?
    ensures ReadAll(lines, convert).Success? ==>
      var c := ReadAll(lines, convert).value;
      WellFormed(c) && |c.ttcs| == |lines| &&
      forall i :: 0 <= i < |lines| ==>
        c.ttcs[i] == convert(ParseLine(lines[i]).value.ttc) &&
        c.ttfbs[i] == convert(ParseLine(lines[i]).value.ttfb)
    ensures ReadAll(lines, convert).Failure? ==>
      var f := ReadAll(lines, convert).error;
      f.line < |lines| && ParseLine(lines[f.line]) == Failure(f.error) &&
      forall i :: 0 <= i < f.line ==> ParseLine(lines[i]).Success?
  {
    var p := ParsedLines(lines);
    CollectSuccess(p, convert);
    if Collect(p, convert).Failure? {
      CollectFailure(p, convert);
    }
  }

  /**
   * The read loop of both scripts: for each line, parse it, append the two
   * converted values and their difference. The first line that raises ends
   * the read.
   */
  method ReadColumns(lines: seq<string>, convert: int -> int) returns (r: Result<Columns, LineFailure>)
    ensures r == ReadAll(lines, convert)
  {
    ghost var parsed := ParsedLines(lines);
    var ttcs, ttfbs, deltas := [], [], [];
    var i := 0;
    while i < |lines|
      invariant 0 <= i <= |lines|
      invariant Collect(parsed[..i], convert) == Success(Columns(ttcs, ttfbs, deltas))
    {
      var m := ParseLine(lines[i]);
      assert parsed[i] == m;
      if m.Failure? {
        CollectFailsAt(parsed, convert, i, Columns(ttcs, ttfbs, deltas));
        return Failure(LineFailure(i, m.error));
      }
      CollectAppends(parsed, convert, i, Columns(ttcs, ttfbs, deltas));
      // the difference of the two values just appended (`.last` of each column)
      var ttc, ttfb := convert(m.value.ttc), convert(m.value.ttfb);
      ttcs, ttfbs, deltas := ttcs + [ttc], ttfbs + [ttfb], deltas + [ttfb - ttc];
      i := i + 1;
    }
    assert parsed[..i] == parsed;
    r := Success(Columns(ttcs, ttfbs, deltas));
  }

  /** One more line that parses: its two values and their difference are appended. */
  lemma CollectAppends(parsed: seq<Result<Sample, LineError>>, convert: int -> int, i: nat, c: Columns)
    requires i < |parsed| && parsed[i].Success? && Collect(parsed[..i], convert) == Success(c)
    ensures var m := parsed[i].value;
      Collect(parsed[..i + 1], convert) ==
        Success(Columns(c.ttcs + [convert(m.ttc)], c.ttfbs + [convert(m.ttfb)], c.deltas + [convert(m.ttfb) - convert(m.ttc)]))
  {
    assert parsed[..i + 1][..i] == parsed[..i];
  }

  /** A line that raises after the lines before it parsed: the whole read fails on that line. */
  lemma CollectFailsAt(parsed: seq<Result<Sample, LineError>>, convert: int -> int, i: nat, c: Columns)
    requires i < |parsed| && parsed[i].Failure? && Collect(parsed[..i], convert) == Success(c)
    ensures Collect(parsed, convert) == Failure(LineFailure(i, parsed[i].error))
  {
    assert parsed[..i + 1][..i] == parsed[..i];
    CollectStopsAtFailure(parsed, convert, i + 1);
  }

  /** Once a prefix of the lines fails, reading more lines keeps that failure. */
  lemma {:induction false} CollectStopsAtFailure(parsed: seq<Result<Sample, LineError>>, convert: int -> int, k: nat)
    requires k <= |parsed| && Collect(parsed[..k], convert).Failure?
    ensures Collect(parsed, convert) == Collect(parsed[..k], convert)
    decreases |parsed| - k
  {
    if k < |parsed| {
      assert parsed[..k + 1][..k] == parsed[..k];
      CollectStopsAtFailure(parsed, convert, k + 1);
    } else {
      assert parsed[..k] == parsed;
    }
  }
}
