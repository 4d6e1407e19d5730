/**
 * The load driver's connections. An active connection starts, connects,
 * writes its request and reads the response, timing the connect and the
 * first byte; an idle connection only connects and stays open. The
 * driver hands out the result slots and collects the timings. Sockets, the
 * event loop and the clock are outside the model: what `atomic_write`,
 * `atomic_read` and the clock answer during one call is a parameter.
 */
module Driver {
  import opened Timing
  import AtomicIo
  import opened Wrappers

  /** `RESP_BUF_SIZE`: how much one `atomic_read` asks for. */
  const RespBufSize: nat := 4096

  // ---------------------------------------------------------------------------
  // Active connections
  // ---------------------------------------------------------------------------

  /** `active_conn_state_t`. */
  datatype ActiveState = Start | Connecting | WriteRequest | ReadResponse | Done

  /** The position of a state in the order the connection goes through them. */
  function Stage(s: ActiveState): nat {
    match s
    case Start => 0
    case Connecting => 1
    case WriteRequest => 2
    case ReadResponse => 3
    case Done => 4
  }

  /** What `atomic_write` or `atomic_read` hands back: the byte count, and whether it set `hup`. */
  datatype IoResult = IoResult(n: nat, hup: bool)

  /** A transfer of the retrying loop as its caller sees it. */
  function FromTrace(t: AtomicIo.Trace): IoResult
    requires t.exit.Returned? && t.exit.total >= 0
  {
    IoResult(t.exit.total, t.hangup)
  }

  /**
   * What one call of `active_conn_run` sees: the clock's readings in the
   * order they are taken, the result of the write, and the results of the
   * reads in order, after which every read would block.
   */
  datatype Env = Env(clock: nat -> Timespec, wrote: IoResult, answers: seq<IoResult>)

  /** The result of read `j`: the script, then "would block" (no bytes, no hang-up). */
  function ReadAt(answers: seq<IoResult>, j: nat): IoResult {
    if j < |answers| then answers[j] else IoResult(0, false)
  }

  /**
   * The fields of an `active_conn_t` the run looks at, and `sent`: the bytes
   * handed to `write` so far.
   */
  datatype Conn = Conn(state: ActiveState, request: string, off: int, size: int,
                       ttcTimer: TimerState, ttConnect: int,
                       ttfbTimer: TimerState, ttFirstByte: int, sent: string)

  /** `active_conn_init`: at the start, nothing written, both timings unset (-1). */
  function Init(request: string): (c: Conn)
    ensures Inv(c)
  {
    Conn(Start, request, 0, |request|, Zeroed, -1, Zeroed, -1, [])
  }

  /**
   * What holds of a connection between runs: the offset stays within the
   * request, the response is read only once the whole request is out, and
   * the timings are unset until their state has been passed.
   */
  predicate Inv(c: Conn) {
    c.size == |c.request| && 0 <= c.off <= c.size &&
    (Stage(c.state) <= 1 ==> c.off == 0 && c.sent == [] && c.ttConnect == -1) &&
    (c.state == ReadResponse ==> c.off == c.size) &&
    (Stage(c.state) <= 2 ==> c.ttFirstByte == -1)
  }

  /** `atomic_write` does not report more than the `size - off` bytes it is asked for. */
  predicate Fits(c: Conn, w: IoResult) {
    Stage(c.state) <= 2 ==> w.n <= c.size - c.off
  }

  /** One call in progress: the connection, the readings taken, the reads made and the local `hup`. */
  datatype Pass = Pass(c: Conn, tick: nat, j: nat, hup: bool)

  /** One round of the `do … while`: a read, and the first-byte timing on the first bytes. */
  function ReadOnce(p: Pass, env: Env): (q: Pass)
    ensures q.c == p.c.(ttfbTimer := q.c.ttfbTimer, ttFirstByte := q.c.ttFirstByte)
    ensures q.j == p.j + 1
  {
    var r := ReadAt(env.answers, p.j);
    var hup := p.hup || r.hup;
    if r.n > 0 && p.c.ttFirstByte == -1 then
      var t := Stopped(p.c.ttfbTimer, env.clock(p.tick));
      Pass(p.c.(ttfbTimer := t, ttFirstByte := t.dt), p.tick + 1, p.j + 1, hup)
    else Pass(p.c, p.tick, p.j + 1, hup)
  }

  /** The `do … while` loop: read while reads return bytes and no hang-up. */
  function ReadLoop(p: Pass, env: Env): (q: Pass)
    ensures q.c == p.c.(ttfbTimer := q.c.ttfbTimer, ttFirstByte := q.c.ttFirstByte)
    decreases |env.answers| - p.j
  {
    var q := ReadOnce(p, env);
    if p.j < |env.answers| && ReadAt(env.answers, p.j).n > 0 && !q.hup then ReadLoop(q, env) else q
  }

  /** One round of the `switch` in `active_conn_run`: the new state of the call, and whether `done` was set. */
  function Step(p: Pass, env: Env): (r: (Pass, bool))
    requires Inv(p.c) && Fits(p.c, env.wrote)
    ensures Inv(r.0.c)
    ensures !r.1 ==> Stage(r.0.c.state) > Stage(p.c.state) && Fits(r.0.c, env.wrote)
  {
    var c := p.c;
    match c.state
    case Start =>
      var c' := c.(ttcTimer := Started(c.ttcTimer, env.clock(p.tick)),
                   ttfbTimer := Started(c.ttfbTimer, env.clock(p.tick + 1)),
                   state := Connecting);
      (Pass(c', p.tick + 2, p.j, p.hup), true)
    case Connecting =>
      var t := Stopped(c.ttcTimer, env.clock(p.tick));
      (Pass(c.(ttcTimer := t, ttConnect := t.dt, state := WriteRequest), p.tick + 1, p.j, p.hup), false)
    case WriteRequest =>
      var w := env.wrote;
      var hup := p.hup || w.hup;
      var c' := c.(off := c.off + w.n, sent := c.sent + c.request[..w.n]);
      if hup then (Pass(c'.(state := Done), p.tick, p.j, hup), false)
      else if c'.off == c.size then (Pass(c'.(state := ReadResponse), p.tick, p.j, hup), true)
      else (Pass(c', p.tick, p.j, hup), true)
    case ReadResponse =>
      var q := ReadLoop(p, env);
      if q.hup then (q.(c := q.c.(state := Done)), false) else (q, true)
    case Done => (p, true)
  }

  /** The `while (!done)` loop from a call in progress. */
  function RunFrom(p: Pass, env: Env): (q: Pass)
    requires Inv(p.c) && Fits(p.c, env.wrote)
    decreases 4 - Stage(p.c.state)
  {
    var r := Step(p, env);
    if r.1 then r.0 else RunFrom(r.0, env)
  }

  /** One call of `active_conn_run`, from the connection as the last call left it. */
  function AfterRun(c: Conn, env: Env): Conn
    requires Inv(c) && Fits(c, env.wrote)
  {
    RunFrom(Pass(c, 0, 0, false), env).c
  }

  /** The read that ends the `do … while` loop from read `j` on: the first without bytes or with a hang-up. */
  function StopIndex(answers: seq<IoResult>, j: nat): (k: nat)
    ensures j <= k
    ensures ReadAt(answers, k).n == 0 || ReadAt(answers, k).hup
    ensures forall i :: j <= i < k ==> ReadAt(answers, i).n > 0 && !ReadAt(answers, i).hup
    decreases |answers| - j
  {
    if j < |answers| && ReadAt(answers, j).n > 0 && !ReadAt(answers, j).hup then StopIndex(answers, j + 1) else j
  }

  // ---------------------------------------------------------------------------
  // What one call of active_conn_run does
  // ---------------------------------------------------------------------------

  /** Every call keeps the connection invariant. */
  lemma {:induction false} RunFromKeepsInv(p: Pass, env: Env)
    requires Inv(p.c) && Fits(p.c, env.wrote)
    ensures Inv(RunFrom(p, env).c)
    decreases 4 - Stage(p.c.state)
  {
    var r := Step(p, env);
    if !r.1 {
      RunFromKeepsInv(r.0, env);
    }
  }

  /**
   * The state only moves forward, along `START → CONNECTING →
   * WRITE_REQUEST → READ_RESPONSE → DONE` and `WRITE_REQUEST → DONE` on a
   * hang-up: a call from `START` only starts connecting, and every other call
   * stops in a state at or past the one it began in.
   */
  lemma {:induction false} RunFromAdvances(p: Pass, env: Env)
    requires Inv(p.c) && Fits(p.c, env.wrote)
    ensures Stage(RunFrom(p, env).c.state) >= Stage(p.c.state)
    ensures p.c.state == Start ==> RunFrom(p, env).c.state == Connecting
    ensures Stage(p.c.state) >= 1 ==> RunFrom(p, env).c.state != Connecting
    ensures p.c.state == ReadResponse ==> RunFrom(p, env).c.state in {ReadResponse, Done}
    decreases 4 - Stage(p.c.state)
  {
    var r := Step(p, env);
    if !r.1 {
      RunFromAdvances(r.0, env);
    }
  }

  lemma RunAdvances(c: Conn, env: Env)
    requires Inv(c) && Fits(c, env.wrote)
    ensures Inv(AfterRun(c, env))
    ensures Stage(AfterRun(c, env).state) >= Stage(c.state)
    ensures c.state == Start ==> AfterRun(c, env).state == Connecting
    ensures Stage(c.state) >= 1 ==> AfterRun(c, env).state != Connecting
    ensures c.state == ReadResponse ==> AfterRun(c, env).state in {ReadResponse, Done}
  {
    RunFromKeepsInv(Pass(c, 0, 0, false), env);
    RunFromAdvances(Pass(c, 0, 0, false), env);
  }

  /**
   * How far one call goes from each state: from `CONNECTING` it falls
   * through to the write, from every other state it stops after one round
   * (a hang-up moves to `DONE`, where the next round stops at once).
   */
  lemma RunFromCases(p: Pass, env: Env)
    requires Inv(p.c) && Fits(p.c, env.wrote)
    ensures p.c.state == Done ==> RunFrom(p, env) == p
    ensures p.c.state == Connecting ==> RunFrom(p, env) == Step(Step(p, env).0, env).0
    ensures p.c.state != Connecting ==> RunFrom(p, env) == Step(p, env).0
  {
    var r := Step(p, env);
    if !r.1 {
      var r2 := Step(r.0, env);
      if !r2.1 {
        assert r2.0.c.state == Done;
        assert RunFrom(r2.0, env) == Step(r2.0, env).0 == r2.0;
      }
    }
  }

  /**
   * `tt_connect` is set only by a call that finds the connection in
   * `CONNECTING`; that call measures from the start reading to its first
   * reading and goes straight on to write the request.
   */
  lemma ConnectTimed(c: Conn, env: Env)
    requires Inv(c) && Fits(c, env.wrote)
    ensures c.state != Connecting ==> AfterRun(c, env).ttConnect == c.ttConnect
    ensures c.state == Connecting ==>
      AfterRun(c, env).ttConnect == Elapsed(c.ttcTimer.tsA, env.clock(0)) &&
      AfterRun(c, env).off == c.off + env.wrote.n
  {
    RunFromCases(Pass(c, 0, 0, false), env);
  }

  /**
   * `tt_first_byte` is written once: a set value is never overwritten, and
   * only a call in `READ_RESPONSE` sets it.
   */
  lemma FirstByteOnce(c: Conn, env: Env)
    requires Inv(c) && Fits(c, env.wrote)
    ensures c.ttFirstByte != -1 ==> AfterRun(c, env).ttFirstByte == c.ttFirstByte
    ensures c.state != ReadResponse ==> AfterRun(c, env).ttFirstByte == c.ttFirstByte
  {
    var p := Pass(c, 0, 0, false);
    RunFromCases(p, env);
    if c.state == ReadResponse {
      ReadLoopKeepsSet(p, env);
    }
  }

  lemma {:induction false} ReadLoopKeepsSet(p: Pass, env: Env)
    ensures p.c.ttFirstByte != -1 ==> ReadLoop(p, env).c.ttFirstByte == p.c.ttFirstByte
    decreases |env.answers| - p.j
  {
    var q := ReadOnce(p, env);
    if p.j < |env.answers| && ReadAt(env.answers, p.j).n > 0 && !q.hup {
      ReadLoopKeepsSet(q, env);
    }
  }

  /**
   * In `READ_RESPONSE` with `tt_first_byte` unset, a first read that
   * returns bytes stops the first-byte timer at the call's first reading.
   */
  lemma FirstByteTimed(c: Conn, env: Env)
    requires Inv(c) && Fits(c, env.wrote)
    requires c.state == ReadResponse && c.ttFirstByte == -1 && ReadAt(env.answers, 0).n > 0
    requires Elapsed(c.ttfbTimer.tsA, env.clock(0)) != -1
    ensures AfterRun(c, env).ttFirstByte == Elapsed(c.ttfbTimer.tsA, env.clock(0))
  {
    var p := Pass(c, 0, 0, false);
    RunFromCases(p, env);
    var q := ReadOnce(p, env);
    assert q.c.ttFirstByte == Elapsed(c.ttfbTimer.tsA, env.clock(0));
    ReadLoopKeepsSet(q, env);
    assert ReadLoop(p, env).c.ttFirstByte == q.c.ttFirstByte;
  }

  /**
   * An interval of exactly -1 reads as "not measured yet": the next read
   * that brings bytes stops the timer again, at the following clock reading.
   */
  lemma FirstByteRemeasured(c: Conn, env: Env)
    requires Inv(c) && Fits(c, env.wrote)
    requires c.state == ReadResponse && c.ttFirstByte == -1
    requires ReadAt(env.answers, 0).n > 0 && !ReadAt(env.answers, 0).hup && ReadAt(env.answers, 1).n > 0
    requires Elapsed(c.ttfbTimer.tsA, env.clock(0)) == -1
    requires Elapsed(c.ttfbTimer.tsA, env.clock(1)) != -1
    ensures AfterRun(c, env).ttFirstByte == Elapsed(c.ttfbTimer.tsA, env.clock(1))
  {
    var p := Pass(c, 0, 0, false);
    RunFromCases(p, env);
    var q := ReadOnce(p, env);
    assert q.c.ttFirstByte == -1 && q.c.ttfbTimer.tsA == c.ttfbTimer.tsA;
    assert ReadLoop(p, env) == ReadLoop(q, env);
    var q2 := ReadOnce(q, env);
    assert q2.c.ttFirstByte == Elapsed(c.ttfbTimer.tsA, env.clock(1));
    ReadLoopKeepsSet(q2, env);
    assert ReadLoop(q, env).c.ttFirstByte == q2.c.ttFirstByte;
  }

  /**
   * In `READ_RESPONSE` the call reads until a read returns no bytes or
   * hangs up; it ends in `DONE` exactly when that last read hung up, and
   * otherwise yields still in `READ_RESPONSE`.
   */
  lemma ReadEnds(c: Conn, env: Env)
    requires Inv(c) && Fits(c, env.wrote) && c.state == ReadResponse
    ensures AfterRun(c, env).state == Done <==> ReadAt(env.answers, StopIndex(env.answers, 0)).hup
    ensures AfterRun(c, env).state == ReadResponse <==> !ReadAt(env.answers, StopIndex(env.answers, 0)).hup
  {
    var p := Pass(c, 0, 0, false);
    RunFromCases(p, env);
    ReadLoopStops(p, env);
  }

  lemma {:induction false} ReadLoopStops(p: Pass, env: Env)
    requires !p.hup
    ensures ReadLoop(p, env).hup == ReadAt(env.answers, StopIndex(env.answers, p.j)).hup
    decreases |env.answers| - p.j
  {
    var q := ReadOnce(p, env);
    if p.j < |env.answers| && ReadAt(env.answers, p.j).n > 0 && !q.hup {
      ReadLoopStops(q, env);
    }
  }

  /**
   * The write hands `write` the start of the request buffer, not the
   * unwritten part: the bytes sent are the first `n` bytes of the request,
   * and the offset moves on by `n`.
   */
  lemma WriteFromStart(c: Conn, env: Env)
    requires Inv(c) && Fits(c, env.wrote) && c.state == WriteRequest
    ensures AfterRun(c, env).sent == c.sent + c.request[..env.wrote.n]
    ensures AfterRun(c, env).off == c.off + env.wrote.n
    ensures AfterRun(c, env).state == (if env.wrote.hup then Done else if c.off + env.wrote.n == c.size then ReadResponse else WriteRequest)
  {
    RunFromCases(Pass(c, 0, 0, false), env);
  }

  /**
   * A request "GE" written one byte per call: the second call sends "G"
   * again, so the peer receives "GG" while the connection moves on to
   * reading the response.
   */
  lemma WriteRepeatsStart()
    ensures var env := Env(_ => Timespec(0, 0), IoResult(1, false), []);
      var c := Init("GE").(state := WriteRequest);
      var once := AfterRun(c, env);
      Inv(c) && Fits(c, env.wrote) && once.off == 1 && once.state == WriteRequest &&
      Fits(once, env.wrote) && AfterRun(once, env).sent == "GG" && AfterRun(once, env).state == ReadResponse
  {
    var env := Env(_ => Timespec(0, 0), IoResult(1, false), []);
    var c := Init("GE").(state := WriteRequest);
    WriteFromStart(c, env);
    var once := AfterRun(c, env);
    RunAdvances(c, env);
    WriteFromStart(once, env);
    assert "GE"[..1] == "G";
  }

  /**
   * An empty request: the write asks for nothing, `write` answers 0, the
   * retrying loop reports that as a hang-up, and the connection is done
   * without reading.
   */
  lemma EmptyRequestHangsUp()
    ensures var w := FromTrace(AtomicIo.Run([AtomicIo.Moved(0)], 0));
      var env := Env(_ => Timespec(0, 0), w, []);
      var c := Init("").(state := Connecting);
      Inv(c) && Fits(c, w) && AfterRun(c, env).state == Done && AfterRun(c, env).off == 0
  {
    AtomicIo.EmptyRequestHangsUp();
    var w := FromTrace(AtomicIo.Run([AtomicIo.Moved(0)], 0));
    assert w == IoResult(0, true);
    var env := Env(_ => Timespec(0, 0), w, []);
    var c := Init("").(state := Connecting);
    RunFromCases(Pass(c, 0, 0, false), env);
  }

  /**
   * The write's count as the retrying loop delivers it: when the socket
   * never reports more than it was asked for, the loop's total never passes
   * the `size - off` bytes the connection asks it to write.
   */
  lemma WriteReportFits(c: Conn, replies: seq<AtomicIo.Reply>)
    requires Inv(c)
    requires var t := AtomicIo.Run(replies, c.size - c.off); t.exit.Returned? && AtomicIo.Honest(t.calls)
    ensures var t := AtomicIo.Run(replies, c.size - c.off); t.exit.total >= 0 && Fits(c, FromTrace(t))
  {
    AtomicIo.LoopBounded(replies, c.size - c.off, 0, 0);
  }

  /** An `active_conn_t`, updated in place by `active_conn_run`. */
  class ActiveConn {
    var state: ActiveState
    var request: string
    var requestOff: int
    var requestSize: int
    var ttcTimer: Timer
    var ttConnect: int
    var ttfbTimer: Timer
    var ttFirstByte: int
    ghost var sent: string

    /** The two timers are separate objects, as the two embedded structs are. */
    predicate Valid()
      reads this
    {
      ttcTimer != ttfbTimer
    }

    ghost function Snap(): Conn
      reads this, ttcTimer, ttfbTimer
    {
      Conn(state, request, requestOff, requestSize, ttcTimer.State(), ttConnect, ttfbTimer.State(), ttFirstByte, sent)
    }

    /** `active_conn_init` on a zero-filled slot. */
    constructor (request: string)
      ensures Valid() && Snap() == Init(request)
      ensures fresh(ttcTimer) && fresh(ttfbTimer)
    {
      this.request := request;
      state := Start;
      requestOff := 0;
      requestSize := |request|;
      ttConnect := -1;
      ttFirstByte := -1;
      sent := [];
      ttcTimer := new Timer();
      ttfbTimer := new Timer();
    }

    /** `active_conn_run`. */
    method Run(env: Env)
      requires Valid() && Inv(Snap()) && Fits(Snap(), env.wrote)
      modifies this, ttcTimer, ttfbTimer
      ensures Valid() && ttcTimer == old(ttcTimer) && ttfbTimer == old(ttfbTimer)
      ensures Snap() == AfterRun(old(Snap()), env)
    {
      var done := false;
      var hup := false;
      var tick: nat := 0;
      var j: nat := 0;
      ghost var start := Pass(Snap(), 0, 0, false);
      while !done
        invariant Valid() && ttcTimer == old(ttcTimer) && ttfbTimer == old(ttfbTimer)
        invariant !done ==> Inv(Snap()) && Fits(Snap(), env.wrote)
        invariant !done ==> RunFrom(Pass(Snap(), tick, j, hup), env) == RunFrom(start, env)
        invariant done ==> Snap() == RunFrom(start, env).c
        decreases if done then 0 else 5 - Stage(state)
      {
        tick, j, hup, done := Round(env, tick, j, hup);
      }
    }

    /** One round of the `switch (conn->state)` in `active_conn_run`. */
    method Round(env: Env, tick0: nat, j0: nat, hup0: bool) returns (tick: nat, j: nat, hup: bool, done: bool)
      requires Valid() && Inv(Snap()) && Fits(Snap(), env.wrote)
      modifies this, ttcTimer, ttfbTimer
      ensures Valid() && ttcTimer == old(ttcTimer) && ttfbTimer == old(ttfbTimer)
      ensures (Pass(Snap(), tick, j, hup), done) == Step(Pass(old(Snap()), tick0, j0, hup0), env)
    {
      tick, j, hup, done := tick0, j0, hup0, false;
      match state {
        case Start =>
          ttcTimer.Start(env.clock(tick));
          ttfbTimer.Start(env.clock(tick + 1));
          tick := tick + 2;
          state := Connecting;
          done := true;
        case Connecting =>
          ttcTimer.Stop(env.clock(tick));
          tick := tick + 1;
          ttConnect := ttcTimer.DeltaNs();
          state := WriteRequest;
        case WriteRequest =>
          var w := env.wrote;
          sent := sent + request[..w.n];
          requestOff := requestOff + w.n;
          hup := hup || w.hup;
          if hup {
            state := Done;
          } else if requestOff == requestSize {
            state := ReadResponse;
            done := true;
          } else {
            done := true;
          }
        case ReadResponse =>
          tick, j, hup := ReadUntilBlocked(env, tick, j, hup);
          if hup {
            state := Done;
          } else {
            done := true;
          }
        case Done =>
          done := true;
      }
    }

    /** The `do … while` read loop of `READ_RESPONSE`. */
    method ReadUntilBlocked(env: Env, tick0: nat, j0: nat, hup0: bool) returns (tick: nat, j: nat, hup: bool)
      requires Valid()
      modifies ttfbTimer, this
      ensures Valid() && ttcTimer == old(ttcTimer) && ttfbTimer == old(ttfbTimer)
      ensures Pass(Snap(), tick, j, hup) == ReadLoop(Pass(old(Snap()), tick0, j0, hup0), env)
    {
      tick, j, hup := tick0, j0, hup0;
      var more := true;
      while more
        invariant Valid() && ttcTimer == old(ttcTimer) && ttfbTimer == old(ttfbTimer)
        invariant unchanged(ttcTimer)
        invariant state == old(state) && requestOff == old(requestOff) && request == old(request)
        invariant requestSize == old(requestSize) && ttConnect == old(ttConnect) && sent == old(sent)
        invariant more ==> ReadLoop(Pass(Snap(), tick, j, hup), env) == ReadLoop(Pass(old(Snap()), tick0, j0, hup0), env)
        invariant !more ==> Pass(Snap(), tick, j, hup) == ReadLoop(Pass(old(Snap()), tick0, j0, hup0), env)
        decreases more, |env.answers| - j
      {
        ghost var p := Pass(Snap(), tick, j, hup);
        var nread := ReadAt(env.answers, j);
        hup := hup || nread.hup;
        if nread.n > 0 && ttFirstByte == -1 {
          ttfbTimer.Stop(env.clock(tick));
          tick := tick + 1;
          ttFirstByte := ttfbTimer.DeltaNs();
        }
        more := j < |env.answers| && nread.n > 0 && !hup;
        j := j + 1;
        assert Pass(Snap(), tick, j, hup) == ReadOnce(p, env);
      }
    }
  }

  // ---------------------------------------------------------------------------
  // Idle connections
  // ---------------------------------------------------------------------------

  /** `idle_conn_state_t`. */
  datatype IdleState = IdleStart | IdleConnecting | IdleConnected

  /** `idle_conn_run` on a state: the next state, or `None` where it aborts. */
  function IdleRun(s: IdleState): Option<IdleState> {
    match s
    case IdleStart => Some(IdleConnecting)
    case IdleConnected => Some(IdleConnected)
    case IdleConnecting => None
  }

  /** `idle_conn_cb` on a state: connected and run again, or `None` where it aborts. */
  function IdleCallback(s: IdleState): Option<IdleState> {
    if s == IdleConnecting then IdleRun(IdleConnected) else None
  }

  /**
   * The idle connection's rules: a run from the start connects, the
   * callback is legal only while connecting and leaves the connection
   * connected, and a run aborts in any state but the first and the last.
   */
  lemma IdleRules(s: IdleState)
    ensures IdleRun(s).Some? <==> s == IdleStart || s == IdleConnected
    ensures s == IdleStart ==> IdleRun(s) == Some(IdleConnecting)
    ensures s == IdleConnected ==> IdleRun(s) == Some(IdleConnected)
    ensures IdleCallback(s).Some? <==> s == IdleConnecting
    ensures IdleCallback(s).Some? ==> IdleCallback(s).value == IdleConnected
  {
  }

  /** An `idle_conn_t`. */
  class IdleConn {
    var state: IdleState

    /** `idle_conn_init`. */
    constructor ()
      ensures state == IdleStart
    {
      state := IdleStart;
    }

    /** `idle_conn_run`; `aborted` stands for `abort()`, which leaves the state as it was. */
    method Run() returns (aborted: bool)
      modifies this
      ensures aborted <==> IdleRun(old(state)).None?
      ensures state == if aborted then old(state) else IdleRun(old(state)).value
    {
      match state {
        case IdleStart =>
          state := IdleConnecting;
          aborted := false;
        case IdleConnected =>
          aborted := false;
        case IdleConnecting =>
          aborted := true;
      }
    }

    /** `idle_conn_cb`. */
    method Callback() returns (aborted: bool)
      modifies this
      ensures aborted <==> IdleCallback(old(state)).None?
      ensures state == if aborted then old(state) else IdleCallback(old(state)).value
    {
      if state == IdleConnecting {
        state := IdleConnected;
        aborted := Run();
      } else {
        aborted := true;
      }
    }
  }

  // ---------------------------------------------------------------------------
  // The driver
  // ---------------------------------------------------------------------------

  /** `timing_result_t`. */
  datatype TimingResult = TimingResult(ttc: int, ttfb: int)

  /** A `driver_t`: the connection counts and the result slots. */
  class Driver {
    var nactive: nat
    var nidle: nat
    var results: array?<TimingResult>

    /** Between `driver_init` and `driver_destroy`: one result slot per active connection. */
    predicate Valid()
      reads this
    {
      results != null && results.Length == nactive
    }

    /** `driver_init`: one zero-filled result slot per active connection. */
    constructor (nactive: nat, nidle: nat)
      ensures this.nactive == nactive && this.nidle == nidle
      ensures Valid() && fresh(results)
      ensures forall ii :: 0 <= ii < results.Length ==> results[ii] == TimingResult(0, 0)
    {
      this.nactive := nactive;
      this.nidle := nidle;
      results := new TimingResult[nactive](_ => TimingResult(0, 0));
    }

    /** `driver_destroy`: the result slots are released. */
    method Destroy()
      requires results != null
      modifies this
      ensures results == null && nactive == old(nactive) && nidle == old(nidle)
    {
      results := null;
    }

    /**
     * `driver_run`, first loop over the idle connections: each is set up
     * and run once, so each is connecting.
     */
    method OpenIdle() returns (conns: seq<IdleConn>)
      ensures old(Valid()) ==> Valid()
      ensures |conns| == nidle
      ensures forall ii :: 0 <= ii < nidle ==> fresh(conns[ii]) && conns[ii].state == IdleConnecting
    {
      conns := [];
      var ii := 0;
      while ii < nidle
        invariant ii <= nidle && |conns| == ii
        invariant forall k :: 0 <= k < ii ==> fresh(conns[k]) && conns[k].state == IdleConnecting
      {
        var conn := new IdleConn();
        var aborted := conn.Run();
        conns := conns + [conn];
        ii := ii + 1;
      }
    }

    /**
     * `driver_run`, loop over the active connections: each is set up with
     * the request and run once, which starts its timers at the clock
     * readings it is given and leaves it connecting.
     */
    method OpenActive(request: string, clock: nat -> nat -> Timespec) returns (conns: seq<ActiveConn>)
      ensures old(Valid()) ==> Valid()
      ensures |conns| == nactive
      ensures forall ii :: 0 <= ii < nactive ==>
        fresh(conns[ii]) && conns[ii].Valid() &&
        conns[ii].Snap() == AfterRun(Init(request), Env(clock(ii), IoResult(0, false), []))
    {
      conns := [];
      var ii := 0;
      while ii < nactive
        invariant ii <= nactive && |conns| == ii
        invariant forall k :: 0 <= k < ii ==>
          fresh(conns[k]) && fresh(conns[k].ttcTimer) && fresh(conns[k].ttfbTimer) && conns[k].Valid() &&
          conns[k].Snap() == AfterRun(Init(request), Env(clock(k), IoResult(0, false), []))
      {
        var conn := new ActiveConn(request);
        conn.Run(Env(clock(ii), IoResult(0, false), []));
        conns := conns + [conn];
        ii := ii + 1;
      }
    }

    /** `driver_run`, last loop: every active connection's two timings land in its result slot. */
    method CollectResults(conns: seq<ActiveConn>)
      requires Valid() && |conns| == nactive
      modifies results
      ensures Valid()
      ensures forall ii :: 0 <= ii < nactive ==> results[ii] == TimingResult(conns[ii].ttConnect, conns[ii].ttFirstByte)
    {
      var ii := 0;
      while ii < nactive
        invariant ii <= nactive
        invariant forall k :: 0 <= k < ii ==> results[k] == TimingResult(conns[k].ttConnect, conns[k].ttFirstByte)
      {
        results[ii] := TimingResult(conns[ii].ttConnect, conns[ii].ttFirstByte);
        ii := ii + 1;
      }
    }
  }
}
