/**
 * The percentile report: every line of standard input is a `ttc ttfb` pair
 * in nanoseconds; the three series (ttc, ttfb and their difference) are
 * sorted independently and a fixed list of ranks is printed as a
 * fixed-width table. The percentile of a sorted series comes from a library
 * the model does not see; it is a parameter here.
 */
module Percentiles {
  import opened Wrappers
  import opened Text
  import opened LatencyLines

  const NsPerMs: int := 1_000_000
  /** `"%5s %20s %20s %20s"`: the rank column and the three value columns. */
  const RankWidth: nat := 5
  const ValueWidth: nat := 20
  /** The width of every row of the table when its fields fit their columns. */
  const RowWidth: nat := RankWidth + 3 * (ValueWidth + 1)

  /** Values are read as they are, in nanoseconds: the delta is taken before any conversion. */
  function Nanos(n: int): int { n }

  // ---------------------------------------------------------------------------
  // Sorting: `ttcs.sort!`, `ttfbs.sort!`, `deltas.sort!`
  // ---------------------------------------------------------------------------

  predicate Sorted(s: seq<int>) {
    forall i, j :: 0 <= i < j < |s| ==> s[i] <= s[j]
  }

  predicate SortedUpTo(a: seq<int>, n: int)
    requires 0 <= n <= |a|
  {
    forall i, j :: 0 <= i < j < n ==> a[i] <= a[j]
  }

  /** Exchanging two entries keeps the same values. */
  lemma SwapPermutes(s: seq<int>, i: nat, j: nat)
    requires i < |s| && j < |s|
    ensures multiset(s[i := s[j]][j := s[i]]) == multiset(s)
  {
  }

  /**
   * `sort!` on an array: afterwards the array holds the same values in
   * non-decreasing order. Insertion sort, one entry at a time.
   */
  method SortInPlace(a: array<int>)
    modifies a
    ensures Sorted(a[..])
    ensures multiset(a[..]) == multiset(old(a[..]))
  {
    var i := 0;
    while i < a.Length
      invariant 0 <= i <= a.Length
      invariant SortedUpTo(a[..], i)
      invariant multiset(a[..]) == multiset(old(a[..]))
    {
      InsertAt(a, i);
      i := i + 1;
    }
  }

  /** While `s[j]` moves down, `s[..i+1]` is in order except around position `j`. */
  predicate Sinking(s: seq<int>, i: nat, j: nat) {
    j <= i < |s| &&
    (forall p, q :: 0 <= p < q <= i && q != j ==> s[p] <= s[q]) &&
    (0 < j < i ==> s[j - 1] <= s[j + 1])
  }

  lemma SinkStep(s: seq<int>, i: nat, j: nat)
    requires Sinking(s, i, j) && 0 < j && s[j - 1] > s[j]
    ensures Sinking(s[j - 1 := s[j]][j := s[j - 1]], i, j - 1)
  {
  }

  lemma SinkDone(s: seq<int>, i: nat, j: nat)
    requires Sinking(s, i, j) && (j == 0 || s[j - 1] <= s[j])
    ensures SortedUpTo(s, i + 1)
  {
  }

  /** Moves `a[i]` down into the sorted prefix `a[..i]` by adjacent swaps. */
  method InsertAt(a: array<int>, i: nat)
    requires i < a.Length && SortedUpTo(a[..], i)
    modifies a
    ensures SortedUpTo(a[..], i + 1)
    ensures multiset(a[..]) == multiset(old(a[..]))
  {
    var j: nat := i;
    while j > 0 && a[j - 1] > a[j]
      invariant Sinking(a[..], i, j)
      invariant multiset(a[..]) == multiset(old(a[..]))
    {
      ghost var s := a[..];
      SinkStep(s, i, j);
      SwapPermutes(s, j - 1, j);
      a[j - 1], a[j] := a[j], a[j - 1];
      assert a[..] == s[j - 1 := s[j]][j := s[j - 1]];
      j := j - 1;
    }
    SinkDone(a[..], i, j);
  }

  /** The first entry of a sorted sequence is its least. */
  lemma SortedHead(a: seq<int>, x: int)
    requires Sorted(a) && x in a
    ensures a[0] <= x
  {
    var i :| 0 <= i < |a| && a[i] == x;
  }

  lemma SortedTail(a: seq<int>)
    requires Sorted(a) && a != []
    ensures Sorted(a[1..])
  {
  }

  /** Sorted sequences with the same values start with the same value. */
  lemma HeadsAgree(x: seq<int>, y: seq<int>)
    requires Sorted(x) && Sorted(y) && multiset(x) == multiset(y) && x != []
    ensures y != [] && x[0] == y[0]
  {
    assert x[0] in multiset(y);
    assert y[0] in multiset(x);
    SortedHead(y, x[0]);
    SortedHead(x, y[0]);
  }

  /** Two sorted sequences holding the same values are the same sequence. */
  lemma {:induction false} SortedUnique(x: seq<int>, y: seq<int>)
    requires Sorted(x) && Sorted(y) && multiset(x) == multiset(y)
    ensures x == y
    decreases |x|
  {
    if x == [] {
      assert |multiset(y)| == 0;
    } else {
      HeadsAgree(x, y);
      MultisetTail(x);
      MultisetTail(y);
      SortedTail(x);
      SortedTail(y);
      SortedUnique(x[1..], y[1..]);
      assert x == [x[0]] + x[1..];
      assert y == [y[0]] + y[1..];
    }
  }

  /** No entry of `s` is below `x`. */
  predicate AtLeast(x: int, s: seq<int>) {
    forall k :: 0 <= k < |s| ==> x <= s[k]
  }

  lemma AtLeastPermutation(x: int, s: seq<int>, t: seq<int>)
    requires AtLeast(x, s) && multiset(s) == multiset(t)
    ensures AtLeast(x, t)
  {
    forall k | 0 <= k < |t| ensures x <= t[k] {
      assert t[k] in multiset(s);
    }
  }

  function InsertSorted(v: int, s: seq<int>): (r: seq<int>)
    requires Sorted(s)
    ensures Sorted(r) && multiset(r) == multiset(s) + multiset{v}
    decreases |s|
  {
    if s == [] || v <= s[0] then [v] + s
    else
      var t := InsertSorted(v, s[1..]);
      assert AtLeast(s[0], s[1..] + [v]);
      assert s == [s[0]] + s[1..];
      AtLeastPermutation(s[0], s[1..] + [v], t);
      [s[0]] + t
  }

  /** The sorted order of a series, as a value: what `sort!` leaves in the array. */
  function SortedOf(s: seq<int>): (r: seq<int>)
    ensures Sorted(r) && multiset(r) == multiset(s)
    decreases |s|
  {
    if s == [] then []
    else
      assert s == [s[0]] + s[1..];
      InsertSorted(s[0], SortedOf(s[1..]))
  }

  /** The array sort and the sorted value agree. */
  lemma SortAgrees(a: seq<int>, b: seq<int>)
    requires Sorted(b) && multiset(b) == multiset(a)
    ensures b == SortedOf(a)
  {
    SortedUnique(b, SortedOf(a));
  }

  /**
   * The three series are sorted independently, so after sorting the delta
   * column is in general no longer the ttfb column minus the ttc column:
   * the lines "1 5" and "2 3" give deltas 4 and 1, and after sorting the
   * first entries are 1, 3 and 1, where 3 - 1 is 2.
   */
  lemma SortingSeparatesDeltas()
    ensures var c := Columns([1, 2], [5, 3], [4, 1]);
      WellFormed(c) &&
      SortedOf(c.ttcs) == [1, 2] && SortedOf(c.ttfbs) == [3, 5] && SortedOf(c.deltas) == [1, 4] &&
      SortedOf(c.deltas)[0] != SortedOf(c.ttfbs)[0] - SortedOf(c.ttcs)[0]
  {
    var c := Columns([1, 2], [5, 3], [4, 1]);
    assert WellFormed(c);
    SortedPair(1, 2);
    SortedPair(5, 3);
    SortedPair(4, 1);
  }

  /** Sorting two values puts the smaller one first. */
  lemma SortedPair(x: int, y: int)
    ensures SortedOf([x, y]) == if x <= y then [x, y] else [y, x]
  {
    assert [x, y][1..] == [y];
    assert [y][1..] == [];
  }

  // ---------------------------------------------------------------------------
  // Ranks and cells
  // ---------------------------------------------------------------------------

  /** A rank of the list: an Integer such as 50, or the Float 99.9 (`whole` and one decimal). */
  datatype Rank = IntRank(n: nat) | FloatRank(whole: nat, tenth: nat)

  /** `[50, 75, 90, 95, 99, 99.9]`, in this order. */
  const Ranks: seq<Rank> := [IntRank(50), IntRank(75), IntRank(90), IntRank(95), IntRank(99), FloatRank(99, 9)]

  /** The rank as `"%5s"` sees it before padding: `50.to_s`, `99.9.to_s`. */
  function RankText(p: Rank): string {
    match p
    case IntRank(n) => ShowNat(n)
    case FloatRank(w, t) => ShowNat(w) + "." + [if t < 10 then DigitChar(t) else '0']
  }

  /** The printed ranks are "50", "75", "90", "95", "99" and "99.9"; each fits the rank column. */
  lemma RankTexts()
    ensures RankText(Ranks[0]) == "50" && RankText(Ranks[1]) == "75" && RankText(Ranks[2]) == "90"
    ensures RankText(Ranks[3]) == "95" && RankText(Ranks[4]) == "99" && RankText(Ranks[5]) == "99.9"
    ensures forall k :: 0 <= k < |Ranks| ==> |RankText(Ranks[k])| <= RankWidth
  {
    assert DigitChar(0) == '0' && DigitChar(5) == '5' && DigitChar(7) == '7' && DigitChar(9) == '9';
    assert ShowNat(5) == "5" && ShowNat(7) == "7" && ShowNat(9) == "9";
    assert ShowNat(50) == "50" && ShowNat(75) == "75" && ShowNat(90) == "90";
    assert ShowNat(95) == "95" && ShowNat(99) == "99";
  }

  /**
   * `to_ms(nanos)`: `"%0.2f" % [nanos / 1_000_000]`. For an Integer value the
   * division floors and the two decimals are zeros.
   */
  function MsText(nanos: int): (s: string)
    ensures |s| >= 4 && s[|s| - 3..] == ".00"
  {
    ShowInt(Floor(nanos)) + ".00"
  }

  function Floor(nanos: int): int {
    nanos / NsPerMs
  }

  /** The division floors: the whole milliseconds at or below `nanos`, also for negative values. */
  lemma FloorBracket(nanos: int)
    ensures Floor(nanos) * NsPerMs <= nanos < Floor(nanos) * NsPerMs + NsPerMs
  {
  }

  /** The text before ".00" is the printed floor of the value in milliseconds, which parses back. */
  lemma MsTextParses(nanos: int)
    ensures var s := MsText(nanos);
      ParseInteger(s[..|s| - 3]) == Some(Floor(nanos))
  {
    var s := MsText(nanos);
    assert s[..|s| - 3] == ShowInt(Floor(nanos));
    ParseShowInt(Floor(nanos));
  }

  /** Powers of ten, to bound the length of printed numbers. */
  function Pow10(k: nat): (p: nat)
    ensures p >= 1
  {
    if k == 0 then 1 else 10 * Pow10(k - 1)
  }

  /** A natural number below 10^k prints in at most k digits (k >= 1). */
  lemma {:induction false} ShowNatLength(n: nat, k: nat)
    requires k >= 1 && n < Pow10(k)
    ensures |ShowNat(n)| <= k
    decreases k
  {
    if n >= 10 {
      assert k >= 2;
      assert n / 10 < Pow10(k - 1);
      ShowNatLength(n / 10, k - 1);
    }
  }

  /**
   * Every value of a signed 64-bit nanosecond count prints in at most 17
   * characters (sign, 13 digits, ".00"), so it fits its 20-character column.
   */
  lemma MsTextFits(nanos: int)
    requires -0x8000_0000_0000_0000 <= nanos < 0x8000_0000_0000_0000
    ensures |MsText(nanos)| <= 17 < ValueWidth
  {
    var ms := Floor(nanos);
    FloorBracket(nanos);
    assert -10_000_000_000_000 < ms < 10_000_000_000_000;
    assert Pow10(13) == 10_000_000_000_000;
    if ms < 0 {
      ShowNatLength(-ms, 13);
      assert ShowInt(ms) == "-" + ShowInt(-ms);
    } else {
      ShowNatLength(ms, 13);
    }
  }

  // ---------------------------------------------------------------------------
  // Rows
  // ---------------------------------------------------------------------------

  /** `fmt % [a, b, c, d]` with `fmt = "%5s %20s %20s %20s"`. */
  function FormatRow(a: string, b: string, c: string, d: string): string {
    Rjust(a, RankWidth) + " " + Rjust(b, ValueWidth) + " " + Rjust(c, ValueWidth) + " " + Rjust(d, ValueWidth)
  }

  /** The header row. */
  function HeaderRow(): string {
    FormatRow("", "connect", "first byte", "delta")
  }

  /** The row for a rank: the rank and the three percentiles in milliseconds. */
  function RankRow(p: Rank, ttc: int, ttfb: int, delta: int): string {
    FormatRow(RankText(p), MsText(ttc), MsText(ttfb), MsText(delta))
  }

  /** Four fields of widths 5, 20, 20 and 20 joined by single spaces lie at fixed offsets. */
  lemma FieldsAt(a: string, b: string, c: string, d: string)
    requires |a| == RankWidth && |b| == ValueWidth && |c| == ValueWidth && |d| == ValueWidth
    ensures var row := a + " " + b + " " + c + " " + d;
      |row| == RowWidth &&
      row[..5] == a && row[5] == ' ' && row[6..26] == b && row[26] == ' ' &&
      row[27..47] == c && row[47] == ' ' && row[48..] == d
  {
    var row := a + " " + b + " " + c + " " + d;
    var p1 := a + " ";
    var p2 := p1 + b + " ";
    var p3 := p2 + c + " ";
    assert row == p3 + d;
    assert p3 == p2 + c + " " && p2 == p1 + b + " ";
    assert row[48..] == d;
    assert row[..47] == p3[..47];
    assert p3[27..47] == c;
    assert row[..26] == p2[..26];
    assert p2[6..26] == b;
    assert row[..5] == a;
  }

  /**
   * A row whose fields fit their columns is 68 characters long, and each
   * field is right-justified in its column: the rank in characters 0-4 and
   * the values in 6-25, 27-46 and 48-67, with a space between columns.
   */
  lemma RowLayout(a: string, b: string, c: string, d: string)
    requires |a| <= RankWidth && |b| <= ValueWidth && |c| <= ValueWidth && |d| <= ValueWidth
    ensures var row := FormatRow(a, b, c, d);
      |row| == RowWidth &&
      row[..5] == Rjust(a, RankWidth) && row[5] == ' ' &&
      row[6..26] == Rjust(b, ValueWidth) && row[26] == ' ' &&
      row[27..47] == Rjust(c, ValueWidth) && row[47] == ' ' &&
      row[48..] == Rjust(d, ValueWidth)
  {
    FieldsAt(Rjust(a, RankWidth), Rjust(b, ValueWidth), Rjust(c, ValueWidth), Rjust(d, ValueWidth));
  }

  // ---------------------------------------------------------------------------
  // The whole script
  // ---------------------------------------------------------------------------

  /**
   * `ttcs.percentile(p)` on a series: a value, or `None` for the library's
   * `nil` (which `to_ms` then fails on, `nil / 1_000_000` raising).
   */
  type Percentile = (seq<int>, Rank) -> Option<int>

  /** Why the script stopped. */
  datatype Failure =
    | BadLine(failure: LineFailure)  // a line did not hold two integers
    | NoValue(rank: Rank)            // a percentile was nil

  /** The printed lines, and the failure that ended the script if one did. */
  datatype Outcome = Outcome(printed: seq<string>, failure: Option<Failure>)

  /** The values of one row: a rank and its three percentiles. */
  datatype Row = Row(rank: Rank, ttc: int, ttfb: int, delta: int)

  /** The rows for the ranks `ps`, in order, up to the first rank without a value. */
  datatype Ranked = Ranked(rows: seq<Row>, failure: Option<Failure>)

  function RowsFor(ps: seq<Rank>, ttcs: seq<int>, ttfbs: seq<int>, deltas: seq<int>, pct: Percentile): Ranked
    decreases |ps|
  {
    if ps == [] then Ranked([], None)
    else
      var p := ps[0];
      match (pct(ttcs, p), pct(ttfbs, p), pct(deltas, p))
      case (Some(a), Some(b), Some(c)) =>
        var rest := RowsFor(ps[1..], ttcs, ttfbs, deltas, pct);
        Ranked([Row(p, a, b, c)] + rest.rows, rest.failure)
      case _ => Ranked([], Some(NoValue(p)))
  }

  function RowText(r: Row): string {
    RankRow(r.rank, r.ttc, r.ttfb, r.delta)
  }

  /** The printed form of rows, line by line. */
  function Render(rows: seq<Row>): (out: seq<string>)
    ensures |out| == |rows|
    decreases |rows|
  {
    if rows == [] then [] else Render(rows[..|rows| - 1]) + [RowText(rows[|rows| - 1])]
  }

  lemma {:induction false} RenderAt(rows: seq<Row>, k: nat)
    requires k < |rows|
    ensures Render(rows)[k] == RowText(rows[k])
    decreases |rows|
  {
    if k < |rows| - 1 {
      var init := rows[..|rows| - 1];
      RenderAt(init, k);
      assert init[k] == rows[k];
    }
  }

  lemma RenderSnoc(rows: seq<Row>, r: Row)
    ensures Render(rows + [r]) == Render(rows) + [RowText(r)]
  {
    assert (rows + [r])[..|rows|] == rows;
  }

  /**
   * What the script prints: nothing when a line fails to parse; otherwise
   * the header and the rows of the sorted series.
   */
  function ReportOf(lines: seq<string>, pct: Percentile): Outcome {
    match ReadAll(lines, Nanos)
    case Failure(f) => Outcome([], Some(BadLine(f)))
    case Success(c) =>
      var ranked := RowsFor(Ranks, SortedOf(c.ttcs), SortedOf(c.ttfbs), SortedOf(c.deltas), pct);
      Outcome([HeaderRow()] + Render(ranked.rows), ranked.failure)
  }

  /** Every rank has a row, in order, when every percentile has a value. */
  lemma {:induction false} RowsForComplete(ps: seq<Rank>, ttcs: seq<int>, ttfbs: seq<int>, deltas: seq<int>, pct: Percentile)
    requires forall k :: 0 <= k < |ps| ==>
      pct(ttcs, ps[k]).Some? && pct(ttfbs, ps[k]).Some? && pct(deltas, ps[k]).Some?
    ensures var o := RowsFor(ps, ttcs, ttfbs, deltas, pct);
      o.failure == None && |o.rows| == |ps| &&
      forall k :: 0 <= k < |ps| ==>
        o.rows[k] == Row(ps[k], pct(ttcs, ps[k]).value, pct(ttfbs, ps[k]).value, pct(deltas, ps[k]).value)
    decreases |ps|
  {
    if ps != [] {
      RowsForComplete(ps[1..], ttcs, ttfbs, deltas, pct);
    }
  }

  /** The first rank without a value ends the table: the rows before it are printed, then the failure. */
  lemma {:induction false} RowsForStops(ps: seq<Rank>, ttcs: seq<int>, ttfbs: seq<int>, deltas: seq<int>, pct: Percentile, k: nat)
    requires k < |ps|
    requires forall i :: 0 <= i < k ==> pct(ttcs, ps[i]).Some? && pct(ttfbs, ps[i]).Some? && pct(deltas, ps[i]).Some?
    requires pct(ttcs, ps[k]).None? || pct(ttfbs, ps[k]).None? || pct(deltas, ps[k]).None?
    ensures var o := RowsFor(ps, ttcs, ttfbs, deltas, pct);
      o.failure == Some(NoValue(ps[k])) && |o.rows| == k
    decreases k
  {
    if k > 0 {
      RowsForStops(ps[1..], ttcs, ttfbs, deltas, pct, k - 1);
    }
  }

  /** A malformed line prints nothing and reports the first such line. */
  lemma ReportRejects(lines: seq<string>, pct: Percentile)
    requires ReadAll(lines, Nanos).Failure?
    ensures ReportOf(lines, pct) == Outcome([], Some(BadLine(ReadAll(lines, Nanos).error)))
  {
  }

  /** With well-formed input exactly one header row comes first. */
  lemma ReportHeader(lines: seq<string>, pct: Percentile)
    requires ReadAll(lines, Nanos).Success?
    ensures |ReportOf(lines, pct).printed| >= 1 && ReportOf(lines, pct).printed[0] == HeaderRow()
    ensures forall k :: 1 <= k < |ReportOf(lines, pct).printed| ==> ReportOf(lines, pct).printed[k] != HeaderRow()
  {
    var c := ReadAll(lines, Nanos).value;
    var rows := RowsFor(Ranks, SortedOf(c.ttcs), SortedOf(c.ttfbs), SortedOf(c.deltas), pct).rows;
    assert ReportOf(lines, pct).printed == [HeaderRow()] + Render(rows);
    RenderedNotHeader(rows);
  }

  /** No rendered row is the header. */
  lemma RenderedNotHeader(rows: seq<Row>)
    ensures forall k :: 0 <= k < |rows| ==> Render(rows)[k] != HeaderRow()
  {
    forall k | 0 <= k < |rows| ensures Render(rows)[k] != HeaderRow() {
      RenderAt(rows, k);
      RowsAreNotHeader(rows[k]);
    }
  }

  /** A rank row differs from the header: its last column ends in ".00", the header's in "lta". */
  lemma RowsAreNotHeader(r: Row)
    ensures RowText(r) != HeaderRow()
  {
    FormatRowEnds(RankText(r.rank), MsText(r.ttc), MsText(r.ttfb), MsText(r.delta), ".00");
    assert EndsWith("delta", "lta");
    FormatRowEnds("", "connect", "first byte", "delta", "lta");
  }

  /** A formatted row ends as its last field does. */
  lemma FormatRowEnds(a: string, b: string, c: string, d: string, suffix: string)
    requires EndsWith(d, suffix)
    ensures EndsWith(FormatRow(a, b, c, d), suffix)
  {
    var pre := Rjust(a, RankWidth) + " " + Rjust(b, ValueWidth) + " " + Rjust(c, ValueWidth) + " ";
    RjustEndsWith(d, ValueWidth, suffix);
    EndsWithAppend(pre, Rjust(d, ValueWidth), suffix);
  }

  /**
   * When every percentile of the sorted series has a value: one row per
   * rank, in the order 50, 75, 90, 95, 99, 99.9, after the header, and no
   * failure.
   */
  lemma ReportRows(lines: seq<string>, pct: Percentile)
    requires ReadAll(lines, Nanos).Success?
    requires var c := ReadAll(lines, Nanos).value;
      forall k :: 0 <= k < |Ranks| ==>
        pct(SortedOf(c.ttcs), Ranks[k]).Some? && pct(SortedOf(c.ttfbs), Ranks[k]).Some? && pct(SortedOf(c.deltas), Ranks[k]).Some?
    ensures ReportOf(lines, pct).failure == None && |ReportOf(lines, pct).printed| == 1 + |Ranks|
    ensures var c := ReadAll(lines, Nanos).value;
      forall k :: 0 <= k < |Ranks| ==>
        ReportOf(lines, pct).printed[k + 1] ==
          RankRow(Ranks[k], pct(SortedOf(c.ttcs), Ranks[k]).value, pct(SortedOf(c.ttfbs), Ranks[k]).value, pct(SortedOf(c.deltas), Ranks[k]).value)
  {
    var c := ReadAll(lines, Nanos).value;
    var t, f, d := SortedOf(c.ttcs), SortedOf(c.ttfbs), SortedOf(c.deltas);
    RowsForComplete(Ranks, t, f, d, pct);
    var rows := RowsFor(Ranks, t, f, d, pct).rows;
    assert ReportOf(lines, pct).printed == [HeaderRow()] + Render(rows);
    PrintedAfterHeader(HeaderRow(), rows);
  }

  /** After the header, line k + 1 is the text of row k. */
  lemma PrintedAfterHeader(header: string, rows: seq<Row>)
    ensures forall k :: 0 <= k < |rows| ==> ([header] + Render(rows))[k + 1] == RowText(rows[k])
  {
    forall k | 0 <= k < |rows| ensures ([header] + Render(rows))[k + 1] == RowText(rows[k]) {
      RenderAt(rows, k);
    }
  }

  /**
   * The first rank whose percentile is missing ends the script: the header
   * and the rows of the ranks before it are printed, then the failure.
   */
  lemma ReportStops(lines: seq<string>, pct: Percentile, k: nat)
    requires ReadAll(lines, Nanos).Success? && k < |Ranks|
    requires var c := ReadAll(lines, Nanos).value;
      forall i :: 0 <= i < k ==>
        pct(SortedOf(c.ttcs), Ranks[i]).Some? && pct(SortedOf(c.ttfbs), Ranks[i]).Some? && pct(SortedOf(c.deltas), Ranks[i]).Some?
    requires var c := ReadAll(lines, Nanos).value;
      pct(SortedOf(c.ttcs), Ranks[k]).None? || pct(SortedOf(c.ttfbs), Ranks[k]).None? || pct(SortedOf(c.deltas), Ranks[k]).None?
    ensures ReportOf(lines, pct).failure == Some(NoValue(Ranks[k])) && |ReportOf(lines, pct).printed| == k + 1
  {
    var c := ReadAll(lines, Nanos).value;
    RowsForStops(Ranks, SortedOf(c.ttcs), SortedOf(c.ttfbs), SortedOf(c.deltas), pct, k);
  }

  /** The series as a fresh array, ready to be sorted in place. */
  method ToArray(s: seq<int>) returns (a: array<int>)
    ensures fresh(a) && a[..] == s
  {
    a := new int[|s|](i requires 0 <= i < |s| => s[i]);
  }

  /**
   * The script: read every line into the three arrays, sort each in place,
   * print the header and then, rank by rank, the row of percentiles.
   */
  method Report(lines: seq<string>, pct: Percentile) returns (o: Outcome)
    ensures o == ReportOf(lines, pct)
  {
    var read := ReadColumns(lines, Nanos);
    if read.Failure? {
      return Outcome([], Some(BadLine(read.error)));
    }
    var c := read.value;
    var ttcs := ToArray(c.ttcs);
    var ttfbs := ToArray(c.ttfbs);
    var deltas := ToArray(c.deltas);
    SortInPlace(ttcs);
    SortInPlace(ttfbs);
    SortInPlace(deltas);
    SortAgrees(c.ttcs, ttcs[..]);
    SortAgrees(c.ttfbs, ttfbs[..]);
    SortAgrees(c.deltas, deltas[..]);
    var t, f, d := ttcs[..], ttfbs[..], deltas[..];
    o := PrintRows(HeaderRow(), t, f, d, pct);
  }

  /** Prints `header`, then runs the `each` loop over the ranks. */
  method PrintRows(header: string, t: seq<int>, f: seq<int>, d: seq<int>, pct: Percentile) returns (o: Outcome)
    ensures var ranked := RowsFor(Ranks, t, f, d, pct);
      o == Outcome([header] + Render(ranked.rows), ranked.failure)
  {
    var printed := [header];
    ghost var rows: seq<Row> := [];
    var k := 0;
    while k < |Ranks|
      invariant 0 <= k <= |Ranks|
      invariant var rest := RowsFor(Ranks[k..], t, f, d, pct);
        RowsFor(Ranks, t, f, d, pct) == Ranked(rows + rest.rows, rest.failure)
      invariant printed == [header] + Render(rows)
    {
      var p := Ranks[k];
      var a, b, e := pct(t, p), pct(f, p), pct(d, p);
      RowsForStep(Ranks, t, f, d, pct, k);
      if a.None? || b.None? || e.None? {
        assert rows + [] == rows;
        return Outcome(printed, Some(NoValue(p)));
      }
      var row := Row(p, a.value, b.value, e.value);
      PrintStep(header, printed, rows, row);
      printed := printed + [RowText(row)];
      AppendAssoc(rows, [row], RowsFor(Ranks[k + 1..], t, f, d, pct).rows);
      rows := rows + [row];
      k := k + 1;
    }
    assert rows + [] == rows;
    o := Outcome(printed, None);
  }

  /** One rank of the loop: a row and the rest of the ranks, or the failure at that rank. */
  lemma RowsForStep(ps: seq<Rank>, t: seq<int>, f: seq<int>, d: seq<int>, pct: Percentile, k: nat)
    requires k < |ps|
    ensures var p := ps[k];
      var here := RowsFor(ps[k..], t, f, d, pct);
      if pct(t, p).Some? && pct(f, p).Some? && pct(d, p).Some? then
        here == Ranked([Row(p, pct(t, p).value, pct(f, p).value, pct(d, p).value)] + RowsFor(ps[k + 1..], t, f, d, pct).rows,
                       RowsFor(ps[k + 1..], t, f, d, pct).failure)
      else here == Ranked([], Some(NoValue(p)))
  {
    assert ps[k..][0] == ps[k];
    assert ps[k..][1..] == ps[k + 1..];
  }

  /** Printing one more row extends the rendered table by that row. */
  lemma PrintStep(header: string, printed: seq<string>, rows: seq<Row>, r: Row)
    requires printed == [header] + Render(rows)
    ensures printed + [RowText(r)] == [header] + Render(rows + [r])
  {
    RenderSnoc(rows, r);
    AppendAssoc([header], Render(rows), [RowText(r)]);
  }
}
