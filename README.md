# swarm latency tools — a Dafny model

swarm is a small HTTP load generator.

- Its driver (`driver.c`) opens a number of idle connections and then a number of active ones. Each active connection connects, writes one request, reads the response, and records two timings: time to connect (ttc) and time to first byte (ttfb).
- Reads and writes go through a retrying loop (`ATOMIC_IO` in `util.c`) that copes with partial transfers, interrupts, would-block and hang-ups.
- Intervals are measured with the `timing_t` macros of `util.h`.
- Two Ruby scripts turn the printed `ttc ttfb` lines into reports:
  - `histogram.rb` builds a fixed-width histogram table, one column per named source.
  - `percentiles.rb` builds a table of the 50/75/90/95/99/99.9 percentiles of the three series.

The model follows those five source files with one Dafny module each. Three more modules are shared helpers: `LatencyLines` (the input format both scripts read), `Text` (the Ruby string behaviour) and `Wrappers`.

| file | module | form |
|---|---|---|
| `timing.dfy` | `Timing` | `timing_t` as a class `Timer` whose `Start`/`Stop` update it in place, specified by the value functions `Started`/`Stopped`; `MIN`/`MAX` as functions |
| `atomic_io.dfy` | `AtomicIo` | the `ATOMIC_IO` loop as a method `Transfer` with a `while` loop, specified by the recursive function `Loop` over a script of replies |
| `driver.dfy` | `Driver` | `active_conn_t`, `idle_conn_t` and `driver_t` as classes with the C fields; `active_conn_run` as a method with the `while (!done)` loop and the inner `do … while`, specified by the functions `Step`, `ReadLoop` and `AfterRun` on the value `Conn` |
| `latency_lines.dfy` | `LatencyLines` | the line-by-line read loop both scripts share, as a method `ReadColumns` specified by `ReadAll` |
| `histogram.dfy` | `Histogram` | argument checks, the `series` hash, the sorted column order, the bin edges and the text table |
| `percentiles.dfy` | `Percentiles` | the read loop, the in-place `sort!` (an insertion sort on an `array`) and the rank table |
| `text.dfy` | `Text` | the Ruby string behaviour the scripts use: `strip`, `split(/\s+/)`, `Integer()`, `to_s`, `"%Ns"` and `join` |
| `wrappers.dfy` | `Wrappers` | `Option` and `Result` |

These things come from outside the modelled code, so they are parameters:

- the clock readings;
- what `read`/`write` answer, as a script of replies, after which every call would block;
- the results of `atomic_write`/`atomic_read` during one call of `active_conn_run`;
- the contents of the input files, as a map from path to lines;
- the binning library (`Binner`);
- the percentile library (`Percentile`).

Printed output is modelled as the sequence of lines printed.

## Model

| member | source | states |
|---|---|---|
| Timing.ElapsedIsDifference | util.h:29-35 | the difference `TIME_STOP` stores is the total nanoseconds of the stop reading minus those of the start reading |
| Timing.ElapsedSign | util.h:32-34 | for normalised readings the stored difference is non-negative exactly when the stop reading is not earlier than the start reading |
| Timing.ElapsedZero | util.h:32-34 | for normalised readings the difference is zero exactly when both readings are the same instant |
| Timing.ElapsedFits | util.h:14 | for readings less than about 292 years apart, none of the three `int64_t` assignments to `dt` leaves the 64-bit range |
| Timing.StartStop | util.h:24-35 | start-then-stop measures the interval between the two readings, whatever the timer held; a later start leaves `dt` as it was |
| Timing.Timer.constructor | util.h:12-15 | a fresh timer is zero-filled |
| Timing.Timer.Start | util.h:24-27 | `TIME_START` sets `tsA` to the reading and changes nothing else |
| Timing.Timer.Stop | util.h:29-35 | `TIME_STOP` sets `tsB` to the reading and `dt` to the elapsed nanoseconds since `tsA`; `tsA` is unchanged |
| Timing.Min | util.h:17 | the result is at most both arguments and is one of them |
| Timing.Max | util.h:18 | the result is at least both arguments and is one of them |
| AtomicIo.Loop | util.c:22-57 | every transfer makes at least one call |
| AtomicIo.LoopCalls | util.c:23 | the first call asks at offset `nbytes_tot`; each call asks for `count - nbytes_tot` bytes at offset `nbytes_tot`; each next offset is the previous one plus the bytes it moved |
| AtomicIo.LoopStops | util.c:24-56 | the last call is one that ends the loop (`EAGAIN`, `EPIPE`, `ECONNRESET`, another `errno`, 0 bytes, or reaching `count`); every earlier call is one that continues it |
| AtomicIo.LoopExit | util.c:24-58 | the transfer aborts exactly on an unhandled `errno`; otherwise it returns the total after the last call; it flags a hang-up exactly when the last reply was 0 bytes, `EPIPE` or `ECONNRESET` |
| AtomicIo.LoopBounded | util.c:53-56 | if the primitive never reports more than it was asked for, every requested length is non-negative and the returned total lies between the starting total and `count` |
| AtomicIo.InterruptRetries | util.c:29-30 | an `EINTR` reply repeats the same request with the same total and changes nothing else |
| AtomicIo.InterruptsIrrelevant | util.c:29-30 | removing all `EINTR` replies from a script does not change how the transfer ends or whether it flags a hang-up |
| AtomicIo.EmptyRequestHangsUp | util.c:48-52 | example: a request for 0 bytes answered by 0 makes one call, returns 0 and flags a hang-up |
| AtomicIo.Transfer | util.c:17-59 | the loop makes exactly the calls and exit of `Run`; `*hup` is set to 1 exactly when the transfer hung up and is otherwise untouched, and only when `hup` is not null |
| Driver.Init | driver.c:78-83 | a new connection is in `START`, has offset 0, has size equal to the request length, has both timings -1, and satisfies the connection invariant |
| Driver.Step | driver.c:101-190 | one round of the `switch` keeps the connection invariant; a round that does not set `done` moves strictly forward in the state order and keeps the write bound |
| Driver.ReadLoop | driver.c:163-170 | the read loop changes only the first-byte timer and `tt_first_byte` |
| Driver.StopIndex | driver.c:170 | the read that ends the `do … while` is the first from the given one on that returns no bytes or hangs up |
| Driver.RunFromKeepsInv | driver.c:96-192 | the whole `while (!done)` loop keeps the connection invariant: `0 <= request_off <= request_size`, the response is read only once `request_off == request_size`, and the timings stay unset until their states are passed |
| Driver.RunFromAdvances | driver.c:96-192 | the state never moves backwards; a call from `START` ends in `CONNECTING`; no call from a later state ends in `CONNECTING`; a call from `READ_RESPONSE` ends in `READ_RESPONSE` or `DONE` |
| Driver.RunAdvances | driver.c:96-192 | the same invariant and forward-only state order for one call of `active_conn_run` on a connection |
| Driver.RunFromCases | driver.c:101-191 | from `DONE` a call changes nothing; from `CONNECTING` it falls through to one write round without yielding; from every other state it yields after one round |
| Driver.ConnectTimed | driver.c:124-136 | `tt_connect` changes only in a call that starts in `CONNECTING`; that call sets it to the time from the start reading to its first reading, and then writes in the same call |
| Driver.FirstByteOnce | driver.c:166-169 | once `tt_first_byte` is set it is never overwritten, and only a call in `READ_RESPONSE` can set it |
| Driver.ReadLoopKeepsSet | driver.c:166 | the read loop leaves a set `tt_first_byte` unchanged |
| Driver.FirstByteTimed | driver.c:163-169 | in `READ_RESPONSE` with `tt_first_byte` unset, a first read that returns bytes, at a clock reading whose interval from the start is not -1, sets `tt_first_byte` to that interval; an interval of exactly -1 equals the unset sentinel, so that read leaves the field looking unset (see `FirstByteRemeasured`) |
| Driver.FirstByteRemeasured | driver.c:163-169 | when the first read brings bytes without a hang-up but its interval from the start reading is exactly -1, a second read that brings bytes stops the timer again, and `tt_first_byte` becomes the interval to the second clock reading (when that one is not -1) |
| Driver.ReadEnds | driver.c:163-177 | a call in `READ_RESPONSE` ends in `DONE` exactly when the read ending the loop hung up, and otherwise stays in `READ_RESPONSE` |
| Driver.ReadLoopStops | driver.c:163-170 | the read loop's hang-up flag is that of the first read returning no bytes or hanging up |
| Driver.WriteFromStart | driver.c:133-158 | a write round hands `write` the first `n` bytes of the request, not the unwritten rest, and advances the offset by `n`; it then goes to `DONE` on a hang-up, to `READ_RESPONSE` when the whole request is out, and otherwise stays in `WRITE_REQUEST` |
| Driver.WriteRepeatsStart | driver.c:134-136 | example: a request "GE" written one byte per call sends "GG" and still moves on to reading the response |
| Driver.EmptyRequestHangsUp | driver.c:134-142 | example: with an empty request, the 0-byte write comes back from the retrying loop as a hang-up, so the connection goes to `DONE` without reading |
| Driver.WriteReportFits | driver.c:134-136 | if the socket never reports more bytes than asked, the retrying loop's total is at most the `request_size - request_off` bytes the connection asks for, so the offset bound holds |
| Driver.ActiveConn.constructor | driver.c:61-84 | `active_conn_init` leaves the connection fields equal to `Init(request)`, with two distinct timers |
| Driver.ActiveConn.Run | driver.c:96-192 | `active_conn_run` updates the connection in place to `AfterRun` of its old value, with the timers kept as the same objects |
| Driver.ActiveConn.Round | driver.c:102-190 | one round of the `switch` updates the connection in place as `Step` says, and returns `done` |
| Driver.ActiveConn.ReadUntilBlocked | driver.c:163-170 | the `do … while` read loop updates the connection in place as `ReadLoop` says |
| Driver.IdleRules | driver.c:213-255 | `idle_conn_run` has a next state exactly in `START` and `CONNECTED`: from `START` it goes to `CONNECTING`, from `CONNECTED` it stays there, and in `CONNECTING` it aborts; the callback is legal only in `CONNECTING` and leaves the connection `CONNECTED` |
| Driver.IdleConn.constructor | driver.c:210 | `idle_conn_init` leaves the connection in `START` |
| Driver.IdleConn.Run | driver.c:229-255 | `idle_conn_run` updates the state in place by `IdleRun`, and aborts exactly where `IdleRun` has no next state |
| Driver.IdleConn.Callback | driver.c:213-227 | `idle_conn_cb` updates the state in place by `IdleCallback`, and aborts exactly outside `CONNECTING` |
| Driver.Driver.constructor | driver.c:257-270 | `driver_init` stores the counts and allocates one zeroed result slot per active connection, which establishes `Valid()` (one slot per active connection); `OpenIdle` and `OpenActive` keep it, and `CollectResults` requires it |
| Driver.Driver.Destroy | driver.c:272-278 | `driver_destroy` releases the result slots and keeps the counts |
| Driver.Driver.OpenIdle | driver.c:294-297 | the idle loop creates `nidle` new connections and runs each once, which leaves each in `CONNECTING` |
| Driver.Driver.OpenActive | driver.c:315-319 | the active loop creates `nactive` new connections, each initialised with the request and run once |
| Driver.Driver.CollectResults | driver.c:324-327 | for every `ii < nactive`, `results[ii]` holds connection `ii`'s `tt_connect` and `tt_first_byte` |
| LatencyLines.BlankLineRaises | histogram.rb:17-18 | a line of whitespace has no tokens, so `Integer(nil)` raises |
| LatencyLines.ParsePrintedLine | histogram.rb:17-19 | a line made of two printed integers and a space, followed by nothing or by whitespace (and perhaps more tokens), parses back to those two integers |
| LatencyLines.NonNumericLineRaises | histogram.rb:18 | example: the line `"abc 123"` raises on its first token `"abc"` (the general rule is `ParseLineErrors`) |
| LatencyLines.ParseLineSpec | histogram.rb:17-19 | a line parses exactly when it has at least two tokens and both of the first two are integers; the sample holds their values, and further tokens are ignored |
| LatencyLines.ParseLineErrors | histogram.rb:17-19 | a line with no token raises on the missing ttc; a first token that is no integer raises on it, whatever follows; a good first token with no second one raises on the missing ttfb; a good first token and a bad second one raise on the second |
| LatencyLines.CollectSuccess | histogram.rb:16-21 | the loop completes exactly when every line parses; then each column has one entry per line in line order, and delta i is converted ttfb i minus converted ttc i |
| LatencyLines.CollectFailure | histogram.rb:16-21 | a failed read names the first line that raised, and what it raised |
| LatencyLines.ReadAllSpec | percentiles.rb:11-16 | reading succeeds exactly when every line parses; then it gives three equally long columns in line order, with delta = ttfb - ttc; otherwise it reports the first bad line |
| LatencyLines.ReadColumns | percentiles.rb:11-16 | the append loop computes `ReadAll` for any conversion (identity in `percentiles.rb`, `to_ms` in `histogram.rb`) |
| LatencyLines.CollectStopsAtFailure | histogram.rb:16-21 | once a line raises, the lines after it do not change the outcome |
| Histogram.ToMsBracket | histogram.rb:4-6 | `to_ms` gives the largest whole number of milliseconds not above the value, so it rounds toward minus infinity |
| Histogram.ConvertedDelta | histogram.rb:18-20 | because delta is taken after conversion, it is the floor of the nanosecond delta in ms, or one more |
| Histogram.ConvertedDeltaExample | histogram.rb:4-20 | example: both cases occur (1.5 ms to 2.4 ms gives a delta of 1, the nanosecond delta converts to 0), and -1 ns is -1 ms |
| Histogram.ReadData | histogram.rb:8-25 | `read_data` returns `ReadFile` of the path: a missing file fails; otherwise the three columns are well formed and have one entry per line |
| Histogram.SourcePairs | histogram.rb:62 | the remaining arguments pair as (name `args[2k]`, path `args[2k+1]`), one pair per two arguments |
| Histogram.PluralEquals | histogram.rb:55 | adding "s" keeps kinds apart |
| Histogram.ArgsAccepted | histogram.rb:50-59 | the arguments are accepted exactly when there are at least three, their number is odd, and the first plus "s" is `ttfbs`, `ttcs` or `deltas`; the sources are then the pairs after the first argument |
| Histogram.KeysAfter | histogram.rb:61-64 | the hash keys are exactly the names given |
| Histogram.KeysAfterDistinct | histogram.rb:61-64 | each name is a key once |
| Histogram.PathForIsLast | histogram.rb:63 | the file a name holds is that of its last pair: no later pair has that name |
| Histogram.LastWith | histogram.rb:62-63 | gives the position of the last pair with a name; that pair holds the path the name ends up with |
| Histogram.SeriesAfterSuccess | histogram.rb:61-64 | the hash is filled exactly when every source's file can be read |
| Histogram.SeriesAfterFailure | histogram.rb:61-64 | a failure is that of the first source whose file cannot be read; all earlier sources were read |
| Histogram.SeriesAfterContents | histogram.rb:61-64 | after the loop the keys are the distinct names in order of first insertion, every key has an entry and nothing else has one, and each name holds the file of its last pair |
| Histogram.SeriesAfterStep | histogram.rb:62-63 | one more source stores its file's columns under its name, or ends the loop with its failure |
| Histogram.SeriesAfterStops | histogram.rb:62-63 | once a source fails, the later sources do not change the outcome |
| Histogram.ReadSeries | histogram.rb:61-64 | the `each` loop computes `SeriesAfter` over the files given |
| Histogram.Insert | histogram.rb:66 | inserting into an ordered sequence gives an ordered sequence with one more occurrence of the value |
| Histogram.SortNames | histogram.rb:66 | `keys.sort` is ordered and a permutation of the keys |
| Histogram.OrderedUnique | histogram.rb:66 | two ordered permutations of the same names are equal: the sorted order is determined by the multiset |
| Histogram.ColumnOrderCanonical | histogram.rb:61-66 | the column order depends only on which names were given, not on the order of the pairs |
| Histogram.SortedDistinct | histogram.rb:66 | sorting the distinct keys keeps them distinct |
| Histogram.BinLocsIncreasing | histogram.rb:69 | for a positive bin size there are `nbins + 1` edges; they start at 0, increase by `bin_size` each step, strictly increase, and end at `nbins * bin_size` |
| Histogram.BinLinesSnoc | histogram.rb:78-81 | printing bin `ii` after the earlier bins appends its line |
| Histogram.TableLinesShape | histogram.rb:74-81 | the printed table is the header followed by exactly one line per bin the library returns, line `ii + 1` being bin `ii`'s edge and counts |
| Histogram.PrintTable | histogram.rb:74-81 | the printing loop prints the header and then each bin's line, in bin order |
| Histogram.HeaderWidth | histogram.rb:74-76 | a header whose names fit in 10 characters is `11 * (columns + 1) - 1` characters long |
| Histogram.HeaderStart | histogram.rb:75 | the header begins with `"#         "` |
| Histogram.HeaderColumns | histogram.rb:74-76 | the header holds name j's right-justified cell at offset `11 * (j + 1)`, right after a space |
| Histogram.BinLineWidth | histogram.rb:79-80 | a bin line whose edge and counts fit in 10 characters is as long as the header |
| Histogram.BinLineStart | histogram.rb:79 | a bin line begins with the right-justified edge |
| Histogram.BinLineColumns | histogram.rb:79-80 | a bin line holds column j's count cell at offset `11 * (j + 1)`, right after a space |
| Histogram.TableWidth | histogram.rb:74-81 | when every name, edge and count fits, the header and every bin line are equally long |
| Histogram.TableColumns | histogram.rb:74-81 | when every field fits, the columns line up: the label and the edges fill the first ten characters; name j and the counts of column j share offset `11 * (j + 1)` |
| Histogram.SortedNamesPresent | histogram.rb:66-67 | the sorted names are non-empty and every one of them has an entry |
| Histogram.ReportOutcome | histogram.rb:50-81 | arguments that are not accepted print the usage text, whatever the reader; with accepted arguments the script prints a table exactly when every source can be read, and the table's header names each distinct source once, in sorted order |
| Histogram.TableOutcome | histogram.rb:61-81 | with accepted arguments, the table is printed exactly when every source can be read; its header names each distinct source once, in sorted order |
| Histogram.ReportUsage | histogram.rb:50-64 | with `read_data` as the reader, the usage text is printed exactly when the arguments are not accepted: an unreadable file or bad line never reads as a usage error |
| Histogram.TableContents | histogram.rb:61-81 | a printed table has the sorted names as columns; column j's data is the selected series of the last file given for name j; the first column's series is the one counted, against the edges `BinLocs(nbins, bin_size)`, and the table is the header and bin lines of what the library returns |
| Histogram.Report | histogram.rb:50-81 | the script computes `ReportOf` on the files given |
| Percentiles.SwapPermutes | percentiles.rb:18-20 | exchanging two entries keeps the same values |
| Percentiles.SortInPlace | percentiles.rb:18-20 | `sort!` leaves the array non-decreasing and a permutation of its old contents |
| Percentiles.InsertAt | percentiles.rb:18-20 | moving one entry into the sorted prefix extends the prefix by one and keeps the contents |
| Percentiles.SortedUnique | percentiles.rb:18-20 | two sorted permutations of the same values are equal |
| Percentiles.InsertSorted | percentiles.rb:18-20 | inserting into a sorted sequence gives a sorted sequence with one more occurrence of the value |
| Percentiles.SortedOf | percentiles.rb:18-20 | the sorted value of a series is sorted and a permutation of it |
| Percentiles.SortAgrees | percentiles.rb:18-20 | any sorted permutation of a series, in particular the array after `sort!`, equals `SortedOf` of it |
| Percentiles.SortingSeparatesDeltas | percentiles.rb:15-20 | example: the three series are sorted separately, so for one input afterwards the delta column is no longer ttfb minus ttc entry by entry |
| Percentiles.SortedPair | percentiles.rb:18-20 | sorting two values puts the smaller first |
| Percentiles.RankTexts | percentiles.rb:25 | for the fixed list of ranks (a constant, so an example of one input): the ranks print as 50, 75, 90, 95, 99 and 99.9, in this order, and each fits its 5-character column |
| Percentiles.MsText | percentiles.rb:3-5 | `to_ms` of an integer ends in ".00" |
| Percentiles.FloorBracket | percentiles.rb:4 | the division floors, also for negative values |
| Percentiles.MsTextParses | percentiles.rb:3-5 | the text before ".00" is the printed floor of the value in ms, and it parses back to that number |
| Percentiles.ShowNatLength | percentiles.rb:4 | a number below 10^k prints in at most k digits |
| Percentiles.MsTextFits | percentiles.rb:4-22 | every signed 64-bit nanosecond value prints in at most 17 characters, so it fits its 20-character column |
| Percentiles.FieldsAt | percentiles.rb:22 | four fields of widths 5, 20, 20 and 20 joined by spaces lie at offsets 0, 6, 27 and 48 |
| Percentiles.RowLayout | percentiles.rb:22-29 | a row whose fields fit is 68 characters long; its fields are right-justified in characters 0-4, 6-25, 27-46 and 48-67, with a space between columns |
| Percentiles.Render | percentiles.rb:25-30 | one printed line per row |
| Percentiles.RenderAt | percentiles.rb:25-30 | printed line k is the text of row k |
| Percentiles.RowsForComplete | percentiles.rb:25-30 | when every percentile has a value there is one row per rank, in rank order, and no failure |
| Percentiles.RowsForStops | percentiles.rb:25-30 | the first rank without a value ends the table: the rows before it are printed, then the failure |
| Percentiles.ReportRejects | percentiles.rb:11-16 | a malformed line prints nothing and reports the first such line |
| Percentiles.ReportHeader | percentiles.rb:24-25 | with well-formed input exactly one header row is printed, and it comes first |
| Percentiles.RowsAreNotHeader | percentiles.rb:24-29 | a rank row never equals the header: its last column ends in ".00" and the header's in "lta" |
| Percentiles.FormatRowEnds | percentiles.rb:22 | a formatted row ends the way its last field does |
| Percentiles.ReportRows | percentiles.rb:24-30 | when every percentile has a value, the header comes first, then one row per rank in the order 50, 75, 90, 95, 99, 99.9, and nothing fails |
| Percentiles.ReportStops | percentiles.rb:25-30 | the first rank without a percentile ends the script after the header and the rows of the earlier ranks |
| Percentiles.ToArray | percentiles.rb:11-16 | a fresh array holding the series |
| Percentiles.Report | percentiles.rb:11-30 | the script (read, sort the three arrays in place, print) computes `ReportOf` |
| Percentiles.PrintRows | percentiles.rb:24-30 | the printing loop prints the header and then the rows of `RowsFor`, and stops with its failure |
| Text.StripLeft | histogram.rb:17 | `lstrip` removes exactly the whitespace and NUL prefix, leaving a suffix that does not begin with one |
| Text.StripRight | histogram.rb:17 | `rstrip` removes exactly the whitespace and NUL suffix, leaving a prefix that does not end with one |
| Text.Words | histogram.rb:17 | the words are non-empty and free of whitespace, and there are none exactly for an all-blank string |
| Text.TokensAreWords | histogram.rb:17 | after `strip`, `split(/\s+/)` yields exactly the words, none of them empty |
| Text.ShowInt | histogram.rb:79 | `to_s` is a canonical numeral, with a minus sign when negative |
| Text.ParseShowInt | histogram.rb:18-19 | `Integer(n.to_s) == n` for every integer |
| Text.ParsedTokenIsPrinted | histogram.rb:18-19 | a token that parses to n is the printed n, optionally with a leading "+", or "-0" |
| Text.Rjust | histogram.rb:74-75 | `"%ws"` is at least w long, ends with the argument and is padded with spaces before it |
| Text.JoinFixedWidth | histogram.rb:76 | joining fields of one width with one separator puts field k at offset `k * (w + 1)`, right after the separator |
| Text.RjustEndsWith | percentiles.rb:22 | right-justifying keeps every suffix of the argument |
| Text.StrLeTotal | histogram.rb:66 | string order is total |
| Text.StrLeAntisymmetric | histogram.rb:66 | string order is antisymmetric |
| Text.StrLeTransitive | histogram.rb:66 | string order is transitive |

## Left out

- Sockets and the event loop are not modelled: `socket`, `connect` and its `EINPROGRESS` check, `shutdown`, `close`, `ev_io_*`, `ev_run`, the `sockaddr` copies, `calloc`/`free` of the connection arrays, and `set_nonblocking`. Each is an effect on the outside world with no logic of its own. The `abort()` after a failed `socket` or `connect` is left out with them.
- The idle-phase timer in `driver_run` (driver.c:292-307) is not modelled. It only feeds a debug log line.
- The closing of the idle connections at the end of `driver_run` is not modelled either.
- The `default: abort()` branch of the `switch` in `active_conn_run` (driver.c:185-187) cannot be reached with a datatype state, so it has no counterpart. The `default: abort()` of `idle_conn_run` (driver.c:251-253) is reached in `CONNECTING`; it is modelled by `IdleRun(IdleConnecting) == None`, on which `Driver.IdleConn.Run` aborts.
- Clock readings are parameters. The `assert(_time_rv == 0)` on `clock_gettime` is left out because the clock is outside the model.
- Timing.Timer.DeltaNs: `TIME_DELTA_NS` only reads `dt`, so it carries no contract.
- `perrorf`, `checked_lock` and `checked_unlock` in `util.c`, `swarm.c`, `dlog.h` and `driver.h` are not part of this model. They handle printing, thread setup, locking and debug logging; the struct shapes from `driver.h` appear as the class fields.
- Widths are as follows. `size_t`, `ssize_t` and `int64_t` are unbounded integers. `Timing.ElapsedFits` shows that the `int64_t` arithmetic of `TIME_STOP` does not overflow for readings less than about 292 years apart. `Percentiles.MsTextFits` assumes 64-bit values.
- Driver.ActiveConn.Run: the results of `atomic_write` and `atomic_read` are inputs, and `AtomicIo` models the loop behind them separately. `Driver.WriteReportFits` connects the two. The bytes actually read into `buf` are not modelled: only their count and the hang-up flag matter to the connection.
- The connection's `sent` (the bytes handed to `write`) is ghost state added to state the write's behaviour. The C code keeps no such field.
- The `histogram/array` gem's bin counting is a parameter (`Binner`), and so is `Array#percentile` from `array_stats` (`Percentile`). Both are library code outside the repository. The model does not state their boundary rules or interpolation. It also fixes their outputs as Integers, printed as `Integer#to_s` prints them; Float edges, counts or percentiles from these libraries are not modelled.
- Percentiles.MsText: `"%0.2f"` is modelled for Integer percentiles only, giving the floored value and ".00". A Float percentile from the library would print its fractional part; floating point is not modelled.
- Option parsing is not modelled. The `OptionParser` wiring and help text are outside the model, and `nbins` and `bin_size` are parameters with the defaults 64 and 50. The bin size is an integer, and `-s` values that `Float` parses to non-integers are not modelled. `Report` starts from the positional arguments left after options.
- Text.ParseInteger: `Integer()` accepts only an optional sign followed by canonical decimal digits. The `0x`, `0b` and `0o` prefixes, leading-zero octal and underscores are rejected here but accepted by Ruby.
- File and standard input handling is reduced to values. `File.open`, `f.lines` and `STDIN.lines` become a map from path to lines, or a sequence of lines. `puts` becomes the sequence of printed lines, and a missing file becomes a failure.
- The `.last` reads in the Ruby loops are not modelled as such. The loops append the new values and then the difference of the two values just appended, which is what `.last` returns there.
