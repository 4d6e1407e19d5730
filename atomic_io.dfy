/**
 * The retrying transfer behind `atomic_read` and `atomic_write`: the
 * primitive (`read` or `write`) is called until `count` bytes have moved,
 * the descriptor would block, or the peer has hung up. What the primitive
 * answers is a parameter: a script of replies, one per call, after which
 * every call would block.
 */
module AtomicIo {
  import Text

  /** The `errno` values the loop tells apart. */
  datatype Errno = EAGAIN | EINTR | EPIPE | ECONNRESET | Other(code: int)

  /** One reply of the primitive: a byte count, or `-1` with `errno`. */
  datatype Reply = Moved(n: nat) | Error(errno: Errno)

  /** One call: the offset into the buffer, the length asked for, and the reply. */
  datatype Call = Call(offset: int, length: int, reply: Reply)

  /** How the transfer ended: the total it returns, or `abort()` on an unexpected `errno`. */
  datatype Exit = Returned(total: int) | Aborted(errno: Errno)

  /** What one transfer did: its calls in order, how it ended, and whether it flagged a hang-up. */
  datatype Trace = Trace(calls: seq<Call>, exit: Exit, hangup: bool)

  /** The reply to call `i`: the script, then "would block" for ever. */
  function ReplyAt(replies: seq<Reply>, i: nat): Reply {
    if i < |replies| then replies[i] else Error(EAGAIN)
  }

  /** `call` happened first, then `rest`. */
  function Then(call: Call, rest: Trace): Trace {
    Trace([call] + rest.calls, rest.exit, rest.hangup)
  }

  /**
   * The loop from call `i` on, with `tot` bytes moved so far: each call asks
   * for `count - tot` bytes at offset `tot`.
   */
  function Loop(replies: seq<Reply>, count: int, tot: int, i: nat): (t: Trace)
    ensures |t.calls| >= 1
    decreases |replies| - i
  {
    var call := Call(tot, count - tot, ReplyAt(replies, i));
    if i >= |replies| then Trace([call], Returned(tot), false)
    else
      match replies[i]
      case Error(EAGAIN) => Trace([call], Returned(tot), false)
      case Error(EINTR) => Then(call, Loop(replies, count, tot, i + 1))
      case Error(EPIPE) => Trace([call], Returned(tot), true)
      case Error(ECONNRESET) => Trace([call], Returned(tot), true)
      case Error(Other(e)) => Trace([call], Aborted(Other(e)), false)
      case Moved(n) =>
        if n == 0 then Trace([call], Returned(tot), true)
        else if tot + n == count then Trace([call], Returned(tot + n), false)
        else Then(call, Loop(replies, count, tot + n, i + 1))
  }

  /** A whole transfer of `count` bytes. */
  function Run(replies: seq<Reply>, count: int): Trace {
    Loop(replies, count, 0, 0)
  }

  /** The bytes a reply moved: its count, or none for an error. */
  function MovedBy(r: Reply): nat {
    if r.Moved? then r.n else 0
  }

  /** A reply that ends the loop at offset `tot` of `count` bytes. */
  predicate Stops(r: Reply, tot: int, count: int) {
    match r
    case Error(e) => e != EINTR
    case Moved(n) => n == 0 || tot + n == count
  }

  /** A reply that signals that the peer has gone: end of file, `EPIPE` or `ECONNRESET`. */
  predicate HangsUp(r: Reply) {
    r == Moved(0) || r == Error(EPIPE) || r == Error(ECONNRESET)
  }

  /** The primitive never reports more bytes than it was asked for. */
  predicate Honest(calls: seq<Call>) {
    forall k :: 0 <= k < |calls| ==> MovedBy(calls[k].reply) <= calls[k].length
  }

  // ---------------------------------------------------------------------------
  // What every transfer does
  // ---------------------------------------------------------------------------

  /**
   * Each call asks for the bytes still missing, at the offset reached so
   * far: the first at offset `tot`, each next one past the bytes the
   * previous call moved, and offset plus length is always `count`.
   */
  lemma {:induction false} LoopCalls(replies: seq<Reply>, count: int, tot: int, i: nat)
    ensures var cs := Loop(replies, count, tot, i).calls;
      cs[0].offset == tot &&
      (forall k :: 0 <= k < |cs| ==> cs[k].offset + cs[k].length == count) &&
      (forall k :: 0 <= k < |cs| - 1 ==> cs[k + 1].offset == cs[k].offset + MovedBy(cs[k].reply))
    decreases |replies| - i
  {
    if i < |replies| {
      match replies[i]
      case Error(EINTR) => LoopCalls(replies, count, tot, i + 1);
      case Moved(n) =>
        if n != 0 && tot + n != count {
          LoopCalls(replies, count, tot + n, i + 1);
        }
      case _ =>
    }
  }

  /**
   * Every call but the last is retried past (`EINTR`, or a partial count),
   * and the last one ends the loop.
   */
  lemma {:induction false} LoopStops(replies: seq<Reply>, count: int, tot: int, i: nat)
    ensures var cs := Loop(replies, count, tot, i).calls;
      Stops(cs[|cs| - 1].reply, cs[|cs| - 1].offset, count) &&
      forall k :: 0 <= k < |cs| - 1 ==> !Stops(cs[k].reply, cs[k].offset, count)
    decreases |replies| - i
  {
    if i < |replies| {
      match replies[i]
      case Error(EINTR) =>
        LoopStops(replies, count, tot, i + 1);
        LoopCalls(replies, count, tot, i + 1);
      case Moved(n) =>
        if n != 0 && tot + n != count {
          LoopStops(replies, count, tot + n, i + 1);
          LoopCalls(replies, count, tot + n, i + 1);
        }
      case _ =>
    }
  }

  /**
   * The transfer aborts exactly on an `errno` other than the four it
   * handles; otherwise it returns the offset of the last call plus what that
   * call moved, and it flags a hang-up exactly when the last reply was end
   * of file, `EPIPE` or `ECONNRESET`.
   */
  lemma {:induction false} LoopExit(replies: seq<Reply>, count: int, tot: int, i: nat)
    ensures var t := Loop(replies, count, tot, i);
      var last := t.calls[|t.calls| - 1];
      (t.exit.Aborted? <==> last.reply.Error? && last.reply.errno.Other?) &&
      (t.exit.Aborted? ==> t.exit.errno == last.reply.errno) &&
      (t.exit.Returned? ==> t.exit.total == last.offset + MovedBy(last.reply)) &&
      (t.hangup <==> HangsUp(last.reply))
    decreases |replies| - i
  {
    if i < |replies| {
      match replies[i]
      case Error(EINTR) => LoopExit(replies, count, tot, i + 1);
      case Moved(n) =>
        if n != 0 && tot + n != count {
          LoopExit(replies, count, tot + n, i + 1);
        }
      case _ =>
    }
  }

  /**
   * When the primitive never over-reports, the total never passes `count`:
   * every call asks for a length that is not negative and the returned
   * total lies between the starting offset and `count`.
   */
  lemma {:induction false} LoopBounded(replies: seq<Reply>, count: int, tot: int, i: nat)
    requires 0 <= tot <= count
    requires Honest(Loop(replies, count, tot, i).calls)
    ensures var t := Loop(replies, count, tot, i);
      (forall k :: 0 <= k < |t.calls| ==> 0 <= t.calls[k].length) &&
      (t.exit.Returned? ==> tot <= t.exit.total <= count)
    decreases |replies| - i
  {
    var t := Loop(replies, count, tot, i);
    assert MovedBy(t.calls[0].reply) <= t.calls[0].length;
    if i < |replies| {
      match replies[i]
      case Error(EINTR) =>
        var rest := Loop(replies, count, tot, i + 1);
        assert forall k :: 0 <= k < |rest.calls| ==> rest.calls[k] == t.calls[k + 1];
        LoopBounded(replies, count, tot, i + 1);
      case Moved(n) =>
        if n != 0 && tot + n != count {
          var rest := Loop(replies, count, tot + n, i + 1);
          assert forall k :: 0 <= k < |rest.calls| ==> rest.calls[k] == t.calls[k + 1];
          LoopBounded(replies, count, tot + n, i + 1);
        }
      case _ =>
    }
  }

  /** An `EINTR` reply changes nothing but the number of calls: the loop retries with the same total. */
  lemma InterruptRetries(replies: seq<Reply>, count: int, tot: int, i: nat)
    requires i < |replies| && replies[i] == Error(EINTR)
    ensures var t := Loop(replies, count, tot, i);
      var u := Loop(replies, count, tot, i + 1);
      t.exit == u.exit && t.hangup == u.hangup && t.calls == [Call(tot, count - tot, Error(EINTR))] + u.calls
  {
  }

  /** Dropping the interrupted calls from a script leaves the outcome of the transfer unchanged. */
  lemma {:induction false} InterruptsIrrelevant(replies: seq<Reply>, count: int, tot: int, i: nat)
    requires i <= |replies|
    ensures var t := Loop(replies, count, tot, i);
      var u := Loop(WithoutInterrupts(replies[i..]), count, tot, 0);
      t.exit == u.exit && t.hangup == u.hangup
    decreases |replies| - i
  {
    var rest := replies[i..];
    if i < |replies| {
      assert rest == [replies[i]] + replies[i + 1..];
      assert rest[1..] == replies[i + 1..];
      if replies[i] == Error(EINTR) {
        InterruptsIrrelevant(replies, count, tot, i + 1);
      } else {
        var w := WithoutInterrupts(rest);
        assert w == [replies[i]] + WithoutInterrupts(replies[i + 1..]);
        assert w[0] == replies[i];
        match replies[i]
        case Moved(n) =>
          if n != 0 && tot + n != count {
            InterruptsIrrelevant(replies, count, tot + n, i + 1);
            SkipFirst(w, count, tot + n);
          }
        case _ =>
      }
    } else {
      assert rest == [];
    }
  }

  /** The script without its `EINTR` replies. */
  function WithoutInterrupts(replies: seq<Reply>): (r: seq<Reply>)
    ensures forall k :: 0 <= k < |r| ==> r[k] != Error(EINTR)
    ensures |r| <= |replies|
  {
    if replies == [] then []
    else if replies[0] == Error(EINTR) then WithoutInterrupts(replies[1..])
    else [replies[0]] + WithoutInterrupts(replies[1..])
  }

  /** Starting one call later in a script is starting at the beginning of its tail. */
  lemma {:induction false} SkipFirst(replies: seq<Reply>, count: int, tot: int)
    requires |replies| >= 1
    ensures Loop(replies, count, tot, 1) == Loop(replies[1..], count, tot, 0)
  {
    ShiftedLoop(replies, count, tot, 1);
  }

  lemma {:induction false} ShiftedLoop(replies: seq<Reply>, count: int, tot: int, i: nat)
    requires 1 <= i <= |replies|
    ensures Loop(replies, count, tot, i) == Loop(replies[1..], count, tot, i - 1)
    decreases |replies| - i
  {
    if i < |replies| {
      assert replies[1..][i - 1] == replies[i];
      match replies[i]
      case Error(EINTR) => ShiftedLoop(replies, count, tot, i + 1);
      case Moved(n) =>
        if n != 0 && tot + n != count {
          ShiftedLoop(replies, count, tot + n, i + 1);
        }
      case _ =>
    }
  }

  /** A zero-length request answered with end of file is reported as a hang-up. */
  lemma EmptyRequestHangsUp()
    ensures Run([Moved(0)], 0) == Trace([Call(0, 0, Moved(0))], Returned(0), true)
  {
  }

  // ---------------------------------------------------------------------------
  // The loop itself
  // ---------------------------------------------------------------------------

  /** The `uint8_t` that `hup` points to. */
  class HupFlag {
    var value: int

    constructor (v: int)
      ensures value == v
    {
      value := v;
    }
  }

  /**
   * `ATOMIC_IO(func, fd, buf, count, hup)`: the calls it makes, how it
   * ends, and the flag it leaves. `*hup` is only ever set to 1, and only
   * when `hup` is not null.
   */
  method Transfer(replies: seq<Reply>, count: int, hup: HupFlag?) returns (exit: Exit, ghost calls: seq<Call>)
    modifies hup
    ensures Run(replies, count) == Trace(calls, exit, Run(replies, count).hangup)
    ensures hup != null ==> hup.value == if Run(replies, count).hangup then 1 else old(hup.value)
  {
    var tot := 0;
    var i := 0;
    var done := false;
    ghost var hung := false;
    calls := [];
    while !done
      invariant !done ==> i <= |replies|
      invariant !done ==> Run(replies, count) == var t := Loop(replies, count, tot, i); Trace(calls + t.calls, t.exit, t.hangup)
      invariant done ==> Run(replies, count) == Trace(calls, Returned(tot), hung)
      invariant hup != null ==> hup.value == if hung then 1 else old(hup.value)
      invariant !done ==> !hung
      decreases if done then 0 else |replies| - i + 1
    {
      var reply := ReplyAt(replies, i);
      var call := Call(tot, count - tot, reply);
      Text.AppendAssoc(calls, [call], Loop(replies, count, tot + MovedBy(reply), i + 1).calls);
      calls := calls + [call];
      match reply {
      case Error(EAGAIN) =>
        done := true;
      case Error(EINTR) =>
      case Error(EPIPE) =>
        if hup != null {
          hup.value := 1;
        }
        hung := true;
        done := true;
      case Error(ECONNRESET) =>
        if hup != null {
          hup.value := 1;
        }
        hung := true;
        done := true;
      case Error(Other(e)) =>
        return Aborted(Other(e)), calls;
      case Moved(n) =>
        if n == 0 {
          if hup != null {
            hup.value := 1;
          }
          hung := true;
          done := true;
        } else {
          tot := tot + n;
          done := tot == count;
        }
      }
      i := i + 1;
    }
    exit := Returned(tot);
  }
}
