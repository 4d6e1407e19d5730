/**
 * The histogram report: command-line checking, one latency file per named
 * source, the selected series of each source in name order, the bin edges
 * and the fixed-width text table. Counting values into bins is done by a
 * library the model does not see; it is a parameter here.
 */
module Histogram {
  import opened Wrappers
  import opened Text
  import opened LatencyLines

  const NsPerMs: int := 1_000_000
  /** Every cell of the table is right-justified to this width. */
  const CellWidth: nat := 10
  /** The label of the first header column: `#` and nine spaces. */
  const HeaderLabel: string := "#         "

  /** `nanos / 1_000_000` on Ruby integers, which floors: -1 ns is -1 ms. */
  function ToMs(nanos: int): int {
    nanos / NsPerMs
  }

  /** The conversion gives the largest whole number of milliseconds not above `nanos`. */
  lemma ToMsBracket(nanos: int)
    ensures ToMs(nanos) * NsPerMs <= nanos < ToMs(nanos) * NsPerMs + NsPerMs
  {
  }

  /**
   * Because the two times are converted before they are subtracted, the
   * delta in ms is the floor of the nanosecond delta or one more than it.
   */
  lemma ConvertedDelta(ttc: int, ttfb: int)
    ensures ToMs(ttfb) - ToMs(ttc) == ToMs(ttfb - ttc) || ToMs(ttfb) - ToMs(ttc) == ToMs(ttfb - ttc) + 1
  {
    var a, b, d := ToMs(ttc), ToMs(ttfb), ToMs(ttfb - ttc);
    ToMsBracket(ttc);
    ToMsBracket(ttfb);
    ToMsBracket(ttfb - ttc);
    assert (b - a) * NsPerMs - NsPerMs < ttfb - ttc < (b - a) * NsPerMs + NsPerMs;
  }

  /** Both cases occur: 1.5 ms to 2.4 ms is 0.9 ms apart but one whole ms after conversion. */
  lemma ConvertedDeltaExample()
    ensures ToMs(2_400_000) - ToMs(1_500_000) == 1 && ToMs(2_400_000 - 1_500_000) == 0
    ensures ToMs(-1) == -1
  {
    ToMsBracket(-1);
  }

  // ---------------------------------------------------------------------------
  // Reading one source
  // ---------------------------------------------------------------------------

  /** Why the script stopped without printing a table. */
  datatype Failure =
    | UsageError                                 // help text printed, exit status 1
    | NoSuchFile(path: string)                   // File.open raised
    | BadLine(path: string, failure: LineFailure) // a line of that file raised

  /** What `read_data(path)` returns or raises, the files being a map from path to lines. */
  function ReadFile(files: map<string, seq<string>>, path: string): Result<Columns, Failure> {
    if path !in files then Failure(NoSuchFile(path))
    else
      match ReadAll(files[path], ToMs)
      case Failure(f) => Failure(BadLine(path, f))
      case Success(c) => Success(c)
  }

  /** `read_data(path)`: open the file and read its lines, converting every time to ms. */
  method ReadData(files: map<string, seq<string>>, path: string) returns (r: Result<Columns, Failure>)
    ensures r == ReadFile(files, path)
    ensures r.Success? ==> WellFormed(r.value) && |r.value.ttcs| == |files[path]|
  {
    if path !in files {
      return Failure(NoSuchFile(path));
    }
    var c := ReadColumns(files[path], ToMs);
    ReadAllSpec(files[path], ToMs);
    match c
    case Failure(f) => r := Failure(BadLine(path, f));
    case Success(cols) => r := Success(cols);
  }

  // ---------------------------------------------------------------------------
  // The command line
  // ---------------------------------------------------------------------------

  /** The series a run reports: `:ttcs`, `:ttfbs` or `:deltas`. */
  datatype Kind = Ttcs | Ttfbs | Deltas

  /** The symbol `(ARGV.shift + "s").to_sym`, if it names a series. */
  function KindNamed(sym: string): Option<Kind> {
    if sym == "ttfbs" then Some(Ttfbs)
    else if sym == "ttcs" then Some(Ttcs)
    else if sym == "deltas" then Some(Deltas)
    else None
  }

  function ColumnOf(c: Columns, k: Kind): seq<int> {
    match k
    case Ttcs => c.ttcs
    case Ttfbs => c.ttfbs
    case Deltas => c.deltas
  }

  /** A named source: a column name and the file to read it from. */
  datatype Source = Source(name: string, path: string)

  /**
   * The remaining arguments taken two at a time: `chunk` on the parity of
   * `index / 2` groups indices 2k and 2k + 1, and the pair is (name, path).
   */
  function SourcePairs(args: seq<string>): (ps: seq<Source>)
    requires |args| % 2 == 0
    ensures |ps| == |args| / 2
    ensures forall k :: 0 <= k < |ps| ==> ps[k] == Source(args[2 * k], args[2 * k + 1])
    decreases |args|
  {
    if args == [] then [] else [Source(args[0], args[1])] + SourcePairs(args[2..])
  }

  /** The positional arguments after option parsing: the series kind and the sources. */
  function ParseArgs(argv: seq<string>): Result<(Kind, seq<Source>), Failure> {
    if |argv| <= 1 || (|argv| - 1) % 2 > 0 then Failure(UsageError)
    else
      match KindNamed(argv[0] + "s")
      case None => Failure(UsageError)
      case Some(k) => Success((k, SourcePairs(argv[1..])))
  }

  lemma PluralEquals(x: string, y: string)
    ensures x + "s" == y + "s" <==> x == y
  {
    if x + "s" == y + "s" {
      assert x == (x + "s")[..|x|];
      assert y == (y + "s")[..|y|];
    }
  }

  /**
   * The arguments are accepted exactly when there are at least three of them,
   * an odd number, and the first is `ttc`, `ttfb` or `delta`; the sources
   * are then the pairs (argument 2k + 1, argument 2k + 2).
   */
  lemma ArgsAccepted(argv: seq<string>)
    ensures ParseArgs(argv).Success? <==>
      |argv| >= 3 && |argv| % 2 == 1 && (argv[0] == "ttc" || argv[0] == "ttfb" || argv[0] == "delta")
    ensures ParseArgs(argv).Success? ==>
      var (kind, sources) := ParseArgs(argv).value;
      (kind == Ttcs <==> argv[0] == "ttc") && (kind == Ttfbs <==> argv[0] == "ttfb") &&
      (kind == Deltas <==> argv[0] == "delta") &&
      |sources| == (|argv| - 1) / 2 &&
      forall k :: 0 <= k < |sources| ==> sources[k] == Source(argv[2 * k + 1], argv[2 * k + 2])
  {
    if |argv| > 1 {
      PluralEquals(argv[0], "ttc");
      PluralEquals(argv[0], "ttfb");
      PluralEquals(argv[0], "delta");
      assert "ttcs" == "ttc" + "s" && "ttfbs" == "ttfb" + "s" && "deltas" == "delta" + "s";
    }
  }

  // ---------------------------------------------------------------------------
  // The `series` hash
  // ---------------------------------------------------------------------------

  /** A Ruby Hash from names to columns: its keys in insertion order and its entries. */
  datatype SeriesHash = SeriesHash(keys: seq<string>, entries: map<string, Columns>)

  /** The hash keys after `series[name] = ...` for each source in turn: each name once, at its first insertion. */
  function KeysAfter(sources: seq<Source>): (ks: seq<string>)
    ensures forall n :: n in ks <==> exists k :: 0 <= k < |sources| && sources[k].name == n
    decreases |sources|
  {
    if sources == [] then []
    else
      var init := sources[..|sources| - 1];
      var ks := KeysAfter(init);
      assert forall k :: 0 <= k < |init| ==> init[k] == sources[k];
      var n := sources[|sources| - 1].name;
      if n in ks then ks else ks + [n]
  }

  /** The path of the last source called `name`: a later pair overwrites an earlier one. */
  function PathFor(sources: seq<Source>, name: string): string
    decreases |sources|
  {
    if sources == [] then ""
    else if sources[|sources| - 1].name == name then sources[|sources| - 1].path
    else PathFor(sources[..|sources| - 1], name)
  }

  /** Every key appears once. */
  predicate Distinct(ks: seq<string>) {
    forall i, j :: 0 <= i < j < |ks| ==> ks[i] != ks[j]
  }

  lemma {:induction false} KeysAfterDistinct(sources: seq<Source>)
    ensures Distinct(KeysAfter(sources))
    decreases |sources|
  {
    if sources != [] {
      KeysAfterDistinct(sources[..|sources| - 1]);
    }
  }

  /** The path of the last source with a name is the path of some source with that name. */
  lemma PathForIsLast(sources: seq<Source>, name: string)
    requires exists k :: 0 <= k < |sources| && sources[k].name == name
    ensures exists k :: 0 <= k < |sources| && sources[k] == Source(name, PathFor(sources, name)) &&
                        forall j :: k < j < |sources| ==> sources[j].name != name
  {
    var k := LastWith(sources, name);
  }

  /** The position of the last source called `name`, and that its path is the one `PathFor` finds. */
  lemma {:induction false} LastWith(sources: seq<Source>, name: string) returns (k: nat)
    requires exists k :: 0 <= k < |sources| && sources[k].name == name
    ensures k < |sources| && sources[k] == Source(name, PathFor(sources, name))
    ensures forall j :: k < j < |sources| ==> sources[j].name != name
    decreases |sources|
  {
    var last := |sources| - 1;
    if sources[last].name == name {
      k := last;
    } else {
      var init := sources[..last];
      var k0 :| 0 <= k0 < |sources| && sources[k0].name == name;
      assert init[k0] == sources[k0];
      k := LastWith(init, name);
      assert init[k] == sources[k];
      forall j | k < j < |sources| ensures sources[j].name != name {
        if j < last {
          assert init[j] == sources[j];
        }
      }
    }
  }


  /** `series[name] = columns`: a new name goes to the end of the keys, a known one keeps its place. */
  function Put(h: SeriesHash, name: string, c: Columns): SeriesHash {
    SeriesHash(if name in h.entries then h.keys else h.keys + [name], h.entries[name := c])
  }

  /** How a path is read: its columns, or why it could not be. */
  type Reader = string -> Result<Columns, Failure>

  /** `read_data` over a given set of files. */
  function FileReader(files: map<string, seq<string>>): Reader {
    path => ReadFile(files, path)
  }

  /** The hash after `series[name] = read(path)` for each source in turn, or the first failure. */
  function SeriesAfter(sources: seq<Source>, read: Reader): Result<SeriesHash, Failure>
    decreases |sources|
  {
    if sources == [] then Success(SeriesHash([], map[]))
    else
      var last := sources[|sources| - 1];
      var h :- SeriesAfter(sources[..|sources| - 1], read);
      var c :- read(last.path);
      Success(Put(h, last.name, c))
  }

  /** The series are read exactly when every source's file can be read. */
  lemma {:induction false} SeriesAfterSuccess(sources: seq<Source>, read: Reader)
    ensures SeriesAfter(sources, read).Success? <==>
      forall k :: 0 <= k < |sources| ==> read(sources[k].path).Success?
    decreases |sources|
  {
    if sources != [] {
      var init := sources[..|sources| - 1];
      SeriesAfterSuccess(init, read);
      assert forall k :: 0 <= k < |init| ==> init[k] == sources[k];
    }
  }

  /** A failure is the failure of the first source whose file cannot be read. */
  lemma {:induction false} SeriesAfterFailure(sources: seq<Source>, read: Reader)
    requires SeriesAfter(sources, read).Failure?
    ensures exists k :: 0 <= k < |sources| && read(sources[k].path) == Failure(SeriesAfter(sources, read).error) &&
                        forall j :: 0 <= j < k ==> read(sources[j].path).Success?
    decreases |sources|
  {
    var init := sources[..|sources| - 1];
    assert forall k :: 0 <= k < |init| ==> init[k] == sources[k];
    if SeriesAfter(init, read).Failure? {
      SeriesAfterFailure(init, read);
      var k :| 0 <= k < |init| && read(init[k].path) == Failure(SeriesAfter(init, read).error) &&
                forall j :: 0 <= j < k ==> read(init[j].path).Success?;
    } else {
      SeriesAfterSuccess(init, read);
      assert read(sources[|init|].path) == Failure(SeriesAfter(sources, read).error);
    }
  }

  /**
   * On success the keys are the distinct names in order of first insertion,
   * there is an entry for each key and no other, and each name holds the
   * columns of the last file given for it.
   */
  lemma {:induction false} SeriesAfterContents(sources: seq<Source>, read: Reader)
    requires SeriesAfter(sources, read).Success?
    ensures var h := SeriesAfter(sources, read).value;
      h.keys == KeysAfter(sources) &&
      (forall n :: n in h.entries <==> n in h.keys) &&
      forall n :: n in h.entries ==> read(PathFor(sources, n)) == Success(h.entries[n])
    decreases |sources|
  {
    if sources != [] {
      SeriesAfterContents(sources[..|sources| - 1], read);
    }
  }

  /** One more source: its file is read and stored under its name, or its failure ends the loop. */
  lemma SeriesAfterStep(sources: seq<Source>, read: Reader, i: nat, h: SeriesHash)
    requires i < |sources| && SeriesAfter(sources[..i], read) == Success(h)
    ensures SeriesAfter(sources[..i + 1], read) ==
      match read(sources[i].path)
      case Failure(e) => Failure(e)
      case Success(c) => Success(Put(h, sources[i].name, c))
  {
    assert sources[..i + 1][..i] == sources[..i];
  }

  /** Once a prefix of the sources fails, the whole loop fails the same way. */
  lemma {:induction false} SeriesAfterStops(sources: seq<Source>, read: Reader, i: nat)
    requires i <= |sources| && SeriesAfter(sources[..i], read).Failure?
    ensures SeriesAfter(sources, read) == SeriesAfter(sources[..i], read)
    decreases |sources| - i
  {
    if i < |sources| {
      assert sources[..i + 1][..i] == sources[..i];
      SeriesAfterStops(sources, read, i + 1);
    } else {
      assert sources[..i] == sources;
    }
  }

  /** Reading source `i` with `read_data` either ends the loop with its failure or stores its columns. */
  lemma ReadStep(sources: seq<Source>, files: map<string, seq<string>>, i: nat, h: SeriesHash, data: Result<Columns, Failure>)
    requires i < |sources| && SeriesAfter(sources[..i], FileReader(files)) == Success(h)
    requires data == ReadFile(files, sources[i].path)
    ensures data.Failure? ==> SeriesAfter(sources, FileReader(files)) == Failure(data.error)
    ensures data.Success? ==> SeriesAfter(sources[..i + 1], FileReader(files)) == Success(Put(h, sources[i].name, data.value))
  {
    assert FileReader(files)(sources[i].path) == data;
    SeriesAfterStep(sources, FileReader(files), i, h);
    if data.Failure? {
      SeriesAfterStops(sources, FileReader(files), i + 1);
    }
  }

  /** The loop `series[name] = read_data(path)` over the sources, in order, stopping at the first failure. */
  method ReadSeries(sources: seq<Source>, files: map<string, seq<string>>) returns (r: Result<SeriesHash, Failure>)
    ensures r == SeriesAfter(sources, FileReader(files))
  {
    var h := SeriesHash([], map[]);
    var i := 0;
    while i < |sources|
      invariant 0 <= i <= |sources|
      invariant SeriesAfter(sources[..i], FileReader(files)) == Success(h)
    {
      var src := sources[i];
      var data := ReadData(files, src.path);
      ReadStep(sources, files, i, h, data);
      if data.Failure? {
        return Failure(data.error);
      }
      h := Put(h, src.name, data.value);
      i := i + 1;
    }
    assert sources[..i] == sources;
    r := Success(h);
  }

  // ---------------------------------------------------------------------------
  // Column order: `series.keys.sort`
  // ---------------------------------------------------------------------------

  predicate Ordered(s: seq<string>) {
    forall i, j :: 0 <= i < j < |s| ==> StrLe(s[i], s[j])
  }

  function Insert(x: string, s: seq<string>): (r: seq<string>)
    requires Ordered(s)
    ensures Ordered(r) && multiset(r) == multiset(s) + multiset{x}
    decreases |s|
  {
    if s == [] then [x]
    else if StrLe(x, s[0]) then
      BelowHead(x, s);
      ConsOrdered(x, s);
      [x] + s
    else
      StrLeTotal(x, s[0]);
      var t := Insert(x, s[1..]);
      BelowTail(s);
      BelowInsert(s[0], s[1..], x, t);
      ConsOrdered(s[0], t);
      assert s == [s[0]] + s[1..];
      [s[0]] + t
  }

  /** A head at or below every entry of an ordered tail keeps the sequence ordered. */
  lemma ConsOrdered(h: string, t: seq<string>)
    requires Ordered(t) && forall j :: 0 <= j < |t| ==> StrLe(h, t[j])
    ensures Ordered([h] + t)
  {
    var u := [h] + t;
    forall i, j | 0 <= i < j < |u| ensures StrLe(u[i], u[j]) {
      assert u[j] == t[j - 1];
      if i > 0 {
        assert u[i] == t[i - 1];
      }
    }
  }

  /** Below the first entry of an ordered sequence is below all of it. */
  lemma BelowHead(x: string, s: seq<string>)
    requires Ordered(s) && s != [] && StrLe(x, s[0])
    ensures forall j :: 0 <= j < |s| ==> StrLe(x, s[j])
  {
    forall j | 0 < j < |s| ensures StrLe(x, s[j]) {
      StrLeTransitive(x, s[0], s[j]);
    }
  }

  /** The first entry of an ordered sequence is below every later one. */
  lemma BelowTail(s: seq<string>)
    requires Ordered(s) && s != []
    ensures forall j :: 0 <= j < |s[1..]| ==> StrLe(s[0], s[1..][j])
  {
    forall j | 0 <= j < |s[1..]| ensures StrLe(s[0], s[1..][j]) {
      assert s[1..][j] == s[j + 1];
    }
  }

  /** A bound on every entry and on the inserted one bounds every entry of the result. */
  lemma BelowInsert(h: string, s: seq<string>, x: string, t: seq<string>)
    requires forall j :: 0 <= j < |s| ==> StrLe(h, s[j])
    requires StrLe(h, x) && multiset(t) == multiset(s) + multiset{x}
    ensures forall j :: 0 <= j < |t| ==> StrLe(h, t[j])
  {
    forall j | 0 <= j < |t| ensures StrLe(h, t[j]) {
      assert t[j] in multiset(t);
      if t[j] != x {
        assert t[j] in multiset(s);
        var k :| 0 <= k < |s| && s[k] == t[j];
      }
    }
  }

  /** `keys.sort`: the keys in ascending string order. */
  function SortNames(keys: seq<string>): (r: seq<string>)
    ensures Ordered(r) && multiset(r) == multiset(keys)
    decreases |keys|
  {
    if keys == [] then []
    else
      assert keys == [keys[0]] + keys[1..];
      Insert(keys[0], SortNames(keys[1..]))
  }

  /** The first entry of an ordered sequence is at or below every entry. */
  lemma OrderedHead(a: seq<string>, x: string)
    requires Ordered(a) && x in a
    ensures StrLe(a[0], x)
  {
    var i :| 0 <= i < |a| && a[i] == x;
    if i == 0 {
      StrLeTotal(x, x);
    }
  }

  /** The tail of an ordered sequence is ordered. */
  lemma OrderedTail(s: seq<string>)
    requires Ordered(s) && s != []
    ensures Ordered(s[1..])
  {
    forall i, j | 0 <= i < j < |s[1..]| ensures StrLe(s[1..][i], s[1..][j]) {
      assert s[1..][i] == s[i + 1] && s[1..][j] == s[j + 1];
    }
  }

  /** Two ordered sequences with the same elements are the same sequence. */
  lemma {:induction false} OrderedUnique(a: seq<string>, b: seq<string>)
    requires Ordered(a) && Ordered(b) && multiset(a) == multiset(b)
    ensures a == b
    decreases |a|
  {
    assert |b| == |a| by { assert |multiset(a)| == |multiset(b)|; }
    if a != [] {
      assert a[0] in multiset(b) && b[0] in multiset(a);
      OrderedHead(a, b[0]);
      OrderedHead(b, a[0]);
      StrLeAntisymmetric(a[0], b[0]);
      MultisetTail(a);
      MultisetTail(b);
      OrderedTail(a);
      OrderedTail(b);
      OrderedUnique(a[1..], b[1..]);
      assert a == [a[0]] + a[1..] && b == [b[0]] + b[1..];
    }
  }

  /**
   * The column order depends only on which names were given, never on the
   * order of the pairs on the command line: any two key sequences holding
   * the same names sort to the same columns.
   */
  lemma ColumnOrderCanonical(k1: seq<string>, k2: seq<string>)
    requires multiset(k1) == multiset(k2)
    ensures SortNames(k1) == SortNames(k2)
  {
    OrderedUnique(SortNames(k1), SortNames(k2));
  }

  // ---------------------------------------------------------------------------
  // Bin edges and the table
  // ---------------------------------------------------------------------------

  /** `(0..nbins).map { |ii| bin_size * ii }`: empty when `nbins` is negative. */
  function BinLocs(nbins: int, binSize: int): (locs: seq<int>)
    ensures |locs| == if nbins < 0 then 0 else nbins + 1
    ensures forall i :: 0 <= i < |locs| ==> locs[i] == binSize * i
  {
    if nbins < 0 then [] else seq(nbins + 1, i => binSize * i)
  }

  /**
   * For a positive bin size the edges start at 0, go up by `binSize` from one
   * to the next, and so are strictly increasing; the last is `nbins * binSize`.
   */
  lemma BinLocsIncreasing(nbins: int, binSize: int)
    requires nbins >= 0 && binSize > 0
    ensures var locs := BinLocs(nbins, binSize);
      |locs| == nbins + 1 && locs[0] == 0 && locs[nbins] == nbins * binSize &&
      (forall i :: 0 < i < |locs| ==> locs[i] == locs[i - 1] + binSize) &&
      (forall i, j :: 0 <= i < j < |locs| ==> locs[i] < locs[j])
  {
    var locs := BinLocs(nbins, binSize);
    forall i | 0 < i < |locs| ensures locs[i] == locs[i - 1] + binSize {
      MulStep(binSize, i);
    }
    forall i, j | 0 <= i < j < |locs| ensures locs[i] < locs[j] {
      MulLess(binSize, i, j);
    }
  }

  lemma MulStep(b: int, i: int)
    ensures b * i == b * (i - 1) + b
  {
  }

  lemma MulLess(b: int, i: int, j: int)
    requires b > 0 && i < j
    ensures b * i < b * j
  {
    assert b * j - b * i == b * (j - i);
  }

  /** `fmt % [x]` with `fmt = "%10s"`. */
  function Cell(s: string): string {
    Rjust(s, CellWidth)
  }

  /** The header line: the label, then each name right-justified, joined by spaces. */
  function Header(names: seq<string>): string {
    Join([HeaderLabel] + NameCells(names), " ")
  }

  /** The name cells of the header, one per column. */
  function NameCells(names: seq<string>): (cells: seq<string>)
    ensures |cells| == |names|
    ensures forall j :: 0 <= j < |names| ==> cells[j] == Cell(names[j])
  {
    seq(|names|, j requires 0 <= j < |names| => Cell(names[j]))
  }

  /** `freq[ii].to_s`, which is empty when `freq` has no entry `ii` (`nil.to_s`). */
  function CountText(freq: seq<int>, ii: nat): string {
    if ii < |freq| then ShowInt(freq[ii]) else ""
  }

  /** The line for bin `ii`: its edge value, then the count of each column. */
  function BinLine(bin: int, freqs: seq<seq<int>>, ii: nat): string {
    Join([Cell(ShowInt(bin))] + CountCells(freqs, ii), " ")
  }

  /** The count cells of bin `ii`, one per column. */
  function CountCells(freqs: seq<seq<int>>, ii: nat): (cells: seq<string>)
    ensures |cells| == |freqs|
    ensures forall j :: 0 <= j < |freqs| ==> cells[j] == Cell(CountText(freqs[j], ii))
  {
    seq(|freqs|, j requires 0 <= j < |freqs| => Cell(CountText(freqs[j], ii)))
  }

  /** The lines of the bins, in bin order. */
  function BinLines(bins: seq<int>, freqs: seq<seq<int>>): (lines: seq<string>)
    ensures |lines| == |bins|
    ensures forall ii :: 0 <= ii < |bins| ==> lines[ii] == BinLine(bins[ii], freqs, ii)
  {
    seq(|bins|, ii requires 0 <= ii < |bins| => BinLine(bins[ii], freqs, ii))
  }

  lemma BinLinesSnoc(bins: seq<int>, freqs: seq<seq<int>>, ii: nat)
    requires ii < |bins|
    ensures BinLines(bins[..ii + 1], freqs) == BinLines(bins[..ii], freqs) + [BinLine(bins[ii], freqs, ii)]
  {
    assert bins[..ii + 1][..ii] == bins[..ii];
  }

  /** Everything printed for a histogram: the header, then one line per bin. */
  function TableLines(names: seq<string>, bins: seq<int>, freqs: seq<seq<int>>): seq<string> {
    [Header(names)] + BinLines(bins, freqs)
  }

  /** One header line, then exactly one line per bin, in bin order. */
  lemma TableLinesShape(names: seq<string>, bins: seq<int>, freqs: seq<seq<int>>)
    ensures var lines := TableLines(names, bins, freqs);
      |lines| == 1 + |bins| && lines[0] == Header(names) &&
      forall ii :: 0 <= ii < |bins| ==> lines[ii + 1] == BinLine(bins[ii], freqs, ii)
  {
  }

  /** The printing loop: `puts` the header, then each bin's line in bin order. */
  method PrintTable(names: seq<string>, bins: seq<int>, freqs: seq<seq<int>>) returns (out: seq<string>)
    ensures out == TableLines(names, bins, freqs)
  {
    out := [Header(names)];
    var ii := 0;
    while ii < |bins|
      invariant 0 <= ii <= |bins|
      invariant out == [Header(names)] + BinLines(bins[..ii], freqs)
    {
      var line := BinLine(bins[ii], freqs, ii);
      BinLinesSnoc(bins, freqs, ii);
      AppendAssoc([Header(names)], BinLines(bins[..ii], freqs), [line]);
      out := out + [line];
      ii := ii + 1;
    }
    assert bins[..ii] == bins;
  }

  lemma HeaderWidth(names: seq<string>)
    requires forall j :: 0 <= j < |names| ==> |names[j]| <= CellWidth
    ensures |Header(names)| == (|names| + 1) * (CellWidth + 1) - 1
  {
    JoinFixedWidth([HeaderLabel] + NameCells(names), " ", CellWidth);
  }

  lemma HeaderStart(names: seq<string>)
    requires forall j :: 0 <= j < |names| ==> |names[j]| <= CellWidth
    ensures StartsWith(Header(names), HeaderLabel)
  {
    JoinFixedWidth([HeaderLabel] + NameCells(names), " ", CellWidth);
  }

  lemma HeaderColumns(names: seq<string>)
    requires forall j :: 0 <= j < |names| ==> |names[j]| <= CellWidth
    ensures forall j :: 0 <= j < |names| ==>
      SeparatedAt(Header(names), ColumnStart(j + 1, CellWidth), " ", Cell(names[j]))
  {
    var cells := NameCells(names);
    forall k | 0 <= k < |cells| ensures |cells[k]| == CellWidth {
      assert cells[k] == Cell(names[k]);
    }
    forall j | 0 <= j < |names|
      ensures SeparatedAt(Header(names), ColumnStart(j + 1, CellWidth), " ", Cell(names[j]))
    {
      RowColumn(HeaderLabel, cells, j);
    }
  }

  /** In a line of ten-character cells joined by spaces, cell j + 1 starts at 11 * (j + 1), after a space. */
  lemma RowColumn(first: string, cells: seq<string>, j: nat)
    requires |first| == CellWidth && j < |cells|
    requires forall k :: 0 <= k < |cells| ==> |cells[k]| == CellWidth
    ensures SeparatedAt(Join([first] + cells, " "), ColumnStart(j + 1, CellWidth), " ", cells[j])
  {
    var row := [first] + cells;
    assert forall k :: 0 <= k < |row| ==> |row[k]| == CellWidth by {
      forall k | 0 <= k < |row| ensures |row[k]| == CellWidth {
        if k > 0 {
          assert row[k] == cells[k - 1];
        }
      }
    }
    JoinAt(row, " ", CellWidth, j + 1);
    assert row[j + 1] == cells[j];
  }

  /** Every cell of a bin line is ten characters wide. */
  lemma BinCellsWidth(bin: int, freqs: seq<seq<int>>, ii: nat)
    requires |ShowInt(bin)| <= CellWidth
    requires forall j :: 0 <= j < |freqs| && ii < |freqs[j]| ==> |ShowInt(freqs[j][ii])| <= CellWidth
    ensures forall k :: 0 <= k < |[Cell(ShowInt(bin))] + CountCells(freqs, ii)| ==>
      |([Cell(ShowInt(bin))] + CountCells(freqs, ii))[k]| == CellWidth
  {
    var cells := CountCells(freqs, ii);
    forall j | 0 <= j < |freqs| ensures |cells[j]| == CellWidth {
      assert |CountText(freqs[j], ii)| <= CellWidth;
    }
  }

  lemma BinLineWidth(bin: int, freqs: seq<seq<int>>, ii: nat)
    requires |ShowInt(bin)| <= CellWidth
    requires forall j :: 0 <= j < |freqs| && ii < |freqs[j]| ==> |ShowInt(freqs[j][ii])| <= CellWidth
    ensures |BinLine(bin, freqs, ii)| == (|freqs| + 1) * (CellWidth + 1) - 1
  {
    BinCellsWidth(bin, freqs, ii);
    JoinFixedWidth([Cell(ShowInt(bin))] + CountCells(freqs, ii), " ", CellWidth);
  }

  lemma BinLineStart(bin: int, freqs: seq<seq<int>>, ii: nat)
    requires |ShowInt(bin)| <= CellWidth
    requires forall j :: 0 <= j < |freqs| && ii < |freqs[j]| ==> |ShowInt(freqs[j][ii])| <= CellWidth
    ensures StartsWith(BinLine(bin, freqs, ii), Cell(ShowInt(bin)))
  {
    BinCellsWidth(bin, freqs, ii);
    JoinFixedWidth([Cell(ShowInt(bin))] + CountCells(freqs, ii), " ", CellWidth);
  }

  lemma BinLineColumns(bin: int, freqs: seq<seq<int>>, ii: nat)
    requires |ShowInt(bin)| <= CellWidth
    requires forall j :: 0 <= j < |freqs| && ii < |freqs[j]| ==> |ShowInt(freqs[j][ii])| <= CellWidth
    ensures forall j :: 0 <= j < |freqs| ==>
      SeparatedAt(BinLine(bin, freqs, ii), ColumnStart(j + 1, CellWidth), " ", CountCells(freqs, ii)[j])
  {
    var cells := CountCells(freqs, ii);
    forall k | 0 <= k < |cells| ensures |cells[k]| == CellWidth {
      assert |CountText(freqs[k], ii)| <= CellWidth;
    }
    forall j | 0 <= j < |freqs|
      ensures SeparatedAt(BinLine(bin, freqs, ii), ColumnStart(j + 1, CellWidth), " ", cells[j])
    {
      RowColumn(Cell(ShowInt(bin)), cells, j);
    }
  }

  /**
   * When every name, edge and count fits in ten characters and there is one
   * frequency list per name, the header and every bin line are equally long.
   */
  lemma TableWidth(names: seq<string>, bins: seq<int>, freqs: seq<seq<int>>)
    requires |freqs| == |names|
    requires forall j :: 0 <= j < |names| ==> |names[j]| <= CellWidth
    requires forall ii :: 0 <= ii < |bins| ==> |ShowInt(bins[ii])| <= CellWidth
    requires forall j, ii :: 0 <= j < |freqs| && 0 <= ii < |freqs[j]| ==> |ShowInt(freqs[j][ii])| <= CellWidth
    ensures forall l :: 0 <= l < |TableLines(names, bins, freqs)| ==>
      |TableLines(names, bins, freqs)[l]| == (|names| + 1) * (CellWidth + 1) - 1
  {
    var out := TableLines(names, bins, freqs);
    HeaderWidth(names);
    forall l | 0 < l < |out| ensures |out[l]| == (|names| + 1) * (CellWidth + 1) - 1 {
      var ii := l - 1;
      assert out[l] == BinLine(bins[ii], freqs, ii);
      BinLineWidth(bins[ii], freqs, ii);
    }
  }

  /**
   * Under the same bounds the columns line up: the first ten characters of
   * the header are its label and those of line ii + 1 the edge of bin ii; at
   * offset 11 * (j + 1), after a space, the header holds the cell of name j
   * and line ii + 1 the count of bin ii for name j.
   */
  lemma TableColumns(names: seq<string>, bins: seq<int>, freqs: seq<seq<int>>)
    requires |freqs| == |names|
    requires forall j :: 0 <= j < |names| ==> |names[j]| <= CellWidth
    requires forall ii :: 0 <= ii < |bins| ==> |ShowInt(bins[ii])| <= CellWidth
    requires forall j, ii :: 0 <= j < |freqs| && 0 <= ii < |freqs[j]| ==> |ShowInt(freqs[j][ii])| <= CellWidth
    ensures var out := TableLines(names, bins, freqs);
      StartsWith(out[0], HeaderLabel) &&
      (forall j :: 0 <= j < |names| ==> SeparatedAt(out[0], ColumnStart(j + 1, CellWidth), " ", Cell(names[j]))) &&
      (forall ii :: 0 <= ii < |bins| ==> StartsWith(out[ii + 1], Cell(ShowInt(bins[ii])))) &&
      forall ii, j :: 0 <= ii < |bins| && 0 <= j < |names| ==>
        SeparatedAt(out[ii + 1], ColumnStart(j + 1, CellWidth), " ", CountCells(freqs, ii)[j])
  {
    var out := TableLines(names, bins, freqs);
    HeaderStart(names);
    HeaderColumns(names);
    forall ii | 0 <= ii < |bins|
      ensures StartsWith(out[ii + 1], Cell(ShowInt(bins[ii])))
      ensures forall j :: 0 <= j < |names| ==>
        SeparatedAt(out[ii + 1], ColumnStart(j + 1, CellWidth), " ", CountCells(freqs, ii)[j])
    {
      assert out[ii + 1] == BinLine(bins[ii], freqs, ii);
      BinLineStart(bins[ii], freqs, ii);
      BinLineColumns(bins[ii], freqs, ii);
    }
  }

  // ---------------------------------------------------------------------------
  // The whole script
  // ---------------------------------------------------------------------------

  /**
   * The binning library call `data.first.histogram(bin_locs, :tp => :min,
   * :other_sets => rest)`: from the first column, the edges and the other
   * columns it yields the bins and one frequency list per column.
   */
  type Binner = (seq<int>, seq<int>, seq<seq<int>>) -> (seq<int>, seq<seq<int>>)

  /** The selected series of each name, in column order. */
  function Data(h: SeriesHash, names: seq<string>, kind: Kind): (data: seq<seq<int>>)
    requires forall n :: n in names ==> n in h.entries
    ensures |data| == |names|
    ensures forall j :: 0 <= j < |names| ==> data[j] == ColumnOf(h.entries[names[j]], kind)
  {
    seq(|names|, j requires 0 <= j < |names| => ColumnOf(h.entries[names[j]], kind))
  }

  /** The columns in the order they are printed: the sorted keys of the hash. */
  function ColumnNames(sources: seq<Source>): seq<string> {
    SortNames(KeysAfter(sources))
  }

  /**
   * What the script prints for its positional arguments (after options), or
   * why it stops: the usage failure, or the first unreadable file or
   * malformed line. The table has the sorted names as columns, the edges
   * `BinLocs(nbins, binSize)` and the counts the library returns for them.
   */
  function ReportOf(argv: seq<string>, nbins: int, binSize: int, read: Reader, binner: Binner): Result<seq<string>, Failure> {
    var args :- ParseArgs(argv);
    TableFor(args.0, args.1, nbins, binSize, read, binner)
  }

  /** From the accepted arguments on: read every source, then print the table or stop at the first failure. */
  function TableFor(kind: Kind, sources: seq<Source>, nbins: int, binSize: int, read: Reader, binner: Binner): Result<seq<string>, Failure>
    requires sources != []
  {
    var h :- SeriesAfter(sources, read);
    var names := SortNames(h.keys);
    SeriesAfterContents(sources, read);
    SortedNamesPresent(h, names, sources);
    var data := Data(h, names, kind);
    var counted := binner(data[0], BinLocs(nbins, binSize), data[1..]);
    Success(TableLines(names, counted.0, counted.1))
  }

  lemma SortedNamesPresent(h: SeriesHash, names: seq<string>, sources: seq<Source>)
    requires sources != [] && h.keys == KeysAfter(sources) && multiset(names) == multiset(h.keys)
    requires forall n :: n in h.entries <==> n in h.keys
    ensures names != [] && forall n :: n in names ==> n in h.entries
  {
    assert sources[0].name in KeysAfter(sources);
    assert sources[0].name in multiset(h.keys);
    forall n | n in names ensures n in h.entries {
      assert n in multiset(names);
    }
  }

  /**
   * The script stops with the usage text whenever the arguments are not
   * accepted; once they are, it stops exactly when some source cannot be
   * read, and otherwise prints a header naming each distinct source once,
   * in sorted order. `ReportUsage` gives the converse of the first part for
   * `read_data`, `TableContents` the lines after the header.
   */
  lemma ReportOutcome(argv: seq<string>, nbins: int, binSize: int, read: Reader, binner: Binner)
    ensures var r := ReportOf(argv, nbins, binSize, read, binner);
      (r == Failure(UsageError) <== ParseArgs(argv).Failure?) &&
      (ParseArgs(argv).Success? ==>
        var sources := ParseArgs(argv).value.1;
        (r.Success? <==> forall k :: 0 <= k < |sources| ==> read(sources[k].path).Success?) &&
        (r.Success? ==>
           r.value[0] == Header(ColumnNames(sources)) &&
           Ordered(ColumnNames(sources)) && Distinct(ColumnNames(sources)) &&
           forall n :: n in ColumnNames(sources) <==> exists k :: 0 <= k < |sources| && sources[k].name == n))
  {
    if ParseArgs(argv).Success? {
      var (kind, sources) := ParseArgs(argv).value;
      TableOutcome(kind, sources, nbins, binSize, read, binner);
    }
  }

  /** The table is printed exactly when every source can be read; its header names each distinct source once, sorted. */
  lemma TableOutcome(kind: Kind, sources: seq<Source>, nbins: int, binSize: int, read: Reader, binner: Binner)
    requires sources != []
    ensures var r := TableFor(kind, sources, nbins, binSize, read, binner);
      (r.Success? <==> forall k :: 0 <= k < |sources| ==> read(sources[k].path).Success?) &&
      (r.Success? ==>
         r.value[0] == Header(ColumnNames(sources)) &&
         Ordered(ColumnNames(sources)) && Distinct(ColumnNames(sources)) &&
         forall n :: n in ColumnNames(sources) <==> exists k :: 0 <= k < |sources| && sources[k].name == n)
  {
    SeriesAfterSuccess(sources, read);
    if SeriesAfter(sources, read).Success? {
      SeriesAfterContents(sources, read);
      var names := ColumnNames(sources);
      KeysAfterDistinct(sources);
      SortedDistinct(KeysAfter(sources));
      forall n ensures n in names <==> n in KeysAfter(sources) {
        assert n in names <==> n in multiset(names);
      }
    }
  }


  /**
   * With `read_data` as the reader the usage text is printed only for
   * arguments that are not accepted: a file failure is never a usage error.
   */
  lemma ReportUsage(argv: seq<string>, nbins: int, binSize: int, files: map<string, seq<string>>, binner: Binner)
    ensures ReportOf(argv, nbins, binSize, FileReader(files), binner) == Failure(UsageError) <==> ParseArgs(argv).Failure?
  {
    var read := FileReader(files);
    if ParseArgs(argv).Success? {
      var sources := ParseArgs(argv).value.1;
      if SeriesAfter(sources, read).Failure? {
        SeriesAfterFailure(sources, read);
        var k :| 0 <= k < |sources| && read(sources[k].path) == Failure(SeriesAfter(sources, read).error);
        assert ReadFile(files, sources[k].path).error != UsageError;
      }
    }
  }

  /**
   * A printed table: the sorted names as columns, and the counts the library
   * returns for the selected series of each name, taken from the last file
   * given for that name, with the first column's series as the counted data.
   */
  lemma TableContents(kind: Kind, sources: seq<Source>, nbins: int, binSize: int, read: Reader, binner: Binner)
    returns (data: seq<seq<int>>)
    requires sources != [] && TableFor(kind, sources, nbins, binSize, read, binner).Success?
    ensures var names := ColumnNames(sources);
      |data| == |names| > 0 &&
      (forall j :: 0 <= j < |names| ==> read(PathFor(sources, names[j])).Success? &&
                                         data[j] == ColumnOf(read(PathFor(sources, names[j])).value, kind)) &&
      var counted := binner(data[0], BinLocs(nbins, binSize), data[1..]);
      TableFor(kind, sources, nbins, binSize, read, binner).value == TableLines(names, counted.0, counted.1)
  {
    var h := SeriesAfter(sources, read).value;
    SeriesAfterContents(sources, read);
    var names := SortNames(h.keys);
    SortedNamesPresent(h, names, sources);
    data := Data(h, names, kind);
    forall j | 0 <= j < |names|
      ensures read(PathFor(sources, names[j])) == Success(h.entries[names[j]])
    {
      assert names[j] in names;
    }
  }

  /** Sorting keeps the keys distinct. */
  lemma SortedDistinct(keys: seq<string>)
    requires Distinct(keys)
    ensures Distinct(SortNames(keys))
  {
    var s := SortNames(keys);
    forall i, j | 0 <= i < j < |s| ensures s[i] != s[j] {
      DistinctCount(keys, s[i]);
      if s[i] == s[j] {
        TwiceCounted(s, i, j);
      }
    }
  }

  lemma TwiceCounted(s: seq<string>, i: nat, j: nat)
    requires i < j < |s| && s[i] == s[j]
    ensures multiset(s)[s[i]] >= 2
  {
    assert s == s[..j] + s[j..];
    assert s[..j][i] == s[i] && s[j..][0] == s[j];
    assert s[i] in multiset(s[..j]) && s[j] in multiset(s[j..]);
  }

  lemma {:induction false} DistinctCount(keys: seq<string>, x: string)
    requires Distinct(keys)
    ensures multiset(keys)[x] <= 1
    decreases |keys|
  {
    if keys != [] {
      DistinctCount(keys[1..], x);
      assert keys == [keys[0]] + keys[1..];
      if keys[0] == x {
        assert x !in keys[1..];
      }
    }
  }

  /**
   * The script from its positional arguments (after options) to the lines
   * it prints, reading each source with `read_data` and printing each line
   * of the table in turn.
   */
  method Report(argv: seq<string>, nbins: int, binSize: int, files: map<string, seq<string>>, binner: Binner)
    returns (r: Result<seq<string>, Failure>)
    ensures r == ReportOf(argv, nbins, binSize, FileReader(files), binner)
  {
    var args := ParseArgs(argv);
    if args.Failure? {
      return Failure(UsageError);
    }
    var (kind, sources) := args.value;
    var hash := ReadSeries(sources, files);
    if hash.Failure? {
      return Failure(hash.error);
    }
    var h := hash.value;
    var names := SortNames(h.keys);
    SeriesAfterContents(sources, FileReader(files));
    SortedNamesPresent(h, names, sources);
    var data := Data(h, names, kind);
    var counted := binner(data[0], BinLocs(nbins, binSize), data[1..]);
    var bins, freqs := counted.0, counted.1;
    var out := PrintTable(names, bins, freqs);
    r := Success(out);
  }
}
