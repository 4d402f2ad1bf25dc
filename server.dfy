/**
 * The in-memory publish/subscribe broker: the fan-out registry (`Channel`),
 * the per-connection protocol handler (`TcpSession`) and the listener with
 * its replay cache (`Server`).
 *
 * Sockets and timers are abstracted away. Each completion handler is a
 * method that runs to completion (the reactor is single-threaded); the clock
 * reading `now` is passed in; the bytes a read delivered are already in
 * `inputBuffer`; a socket is reduced to its open/closed state; a pending
 * write or wait is recorded in `writer`.
 */
module Broker {
  import opened Text
  import opened Istream
  import opened Wire
  import opened Deadline
  import ReplayCache

  /** Both watchdogs give the next read and the next write this long (seconds). */
  const Timeout: int := 30

  /** Which of a session's two watchdog timers fired. */
  datatype Watchdog = InputWatchdog | OutputWatchdog

  /**
   * The write side of a session: no write or wake-up wait outstanding; an
   * `async_wait` on the write-wake signal outstanding; or an `async_write` of
   * `frame` outstanding.
   */
  datatype Writer = Idle | AwaitingWake | Writing(frame: string)

  /** The fan-out registry: a set of subscribers, unique by identity. */
  class Channel {
    var subscribers: set<TcpSession>

    constructor()
      ensures subscribers == {}
    {
      subscribers := {};
    }

    /** Joining is set insertion: joining twice leaves one membership. */
    method Join(s: TcpSession)
      modifies this
      ensures subscribers == old(subscribers) + {s}
    {
      subscribers := subscribers + {s};
    }

    /** Leaving is set erasure: a no-op for a session that is not joined. */
    method Leave(s: TcpSession)
      modifies this
      ensures subscribers == old(subscribers) - {s}
    {
      subscribers := subscribers - {s};
    }

    /**
     * Hands `m` to every current subscriber exactly once, in an unspecified
     * order; each one appends the frame of `m` to its queue and fires its
     * write-wake signal. Nothing else about a subscriber changes.
     */
    method Deliver(m: string)
      requires forall s :: s in subscribers ==> s.Valid()
      modifies subscribers`outputQueue, subscribers`nonEmptyOutputQueue
      ensures forall s :: s in subscribers ==>
                && s.outputQueue == old(s.outputQueue) + [Frame(m)]
                && s.nonEmptyOutputQueue == NegInfin
                && s.Valid()
    {
      var pending := subscribers;
      while pending != {}
        invariant pending <= subscribers
        invariant forall s :: s in subscribers && s !in pending ==>
                    s.outputQueue == old(s.outputQueue) + [Frame(m)] && s.nonEmptyOutputQueue == NegInfin
        invariant forall s :: s in pending ==>
                    s.outputQueue == old(s.outputQueue) && s.nonEmptyOutputQueue == old(s.nonEmptyOutputQueue)
        invariant forall s :: s in subscribers ==> s.Valid()
        decreases pending
      {
        var s :| s in pending;
        s.Deliver(m);
        pending := pending - {s};
      }
    }
  }

  /** One connection's protocol handler. */
  class TcpSession {
    const channel: Channel
    /** `socket_.is_open()`. */
    var socketOpen: bool
    /** Bytes received and not yet consumed (`input_buffer_`). */
    var inputBuffer: string
    /** Pending frames, oldest first (`output_queue_`). */
    var outputQueue: seq<string>
    var inputDeadline: Expiry
    var outputDeadline: Expiry
    /** The write-wake signal (`non_empty_output_queue_`): `NegInfin` is fired, `PosInfin` is reset. */
    var nonEmptyOutputQueue: Expiry
    var writer: Writer

    /**
     * Every queued entry is a complete frame; an outstanding write is of the
     * frame at the front of the queue; the wake signal only ever holds one of
     * its two sentinels; and while the writer waits for the wake signal, that
     * signal is fired exactly when there is output to write, so no wake-up is
     * lost and none is spurious.
     */
    ghost predicate Valid()
      reads this
    {
      && AllFrames(outputQueue)
      && (nonEmptyOutputQueue == NegInfin || nonEmptyOutputQueue == PosInfin)
      && (writer.Writing? ==> outputQueue != [] && outputQueue[0] == writer.frame)
      && (writer.AwaitingWake? ==> (outputQueue != [] <==> nonEmptyOutputQueue == NegInfin))
    }

    /** A fresh session: closed socket, empty buffers, every deadline at `pos_infin`. */
    constructor(ch: Channel)
      ensures channel == ch && Valid() && Fresh()
      ensures inputBuffer == []
      ensures inputDeadline == PosInfin && outputDeadline == PosInfin && nonEmptyOutputQueue == PosInfin
    {
      channel := ch;
      socketOpen := false;
      inputBuffer := [];
      outputQueue := [];
      inputDeadline := PosInfin;
      outputDeadline := PosInfin;
      nonEmptyOutputQueue := PosInfin;
      writer := Idle;
    }

    /** The state of a session that has been created and not yet accepted or started. */
    ghost predicate Fresh()
      reads this
    {
      !socketOpen && writer == Idle && outputQueue == []
    }

    predicate Stopped()
      reads this
    {
      !socketOpen
    }

    /** Joins the channel, starts the read loop and the write loop. */
    method Start(now: int)
      requires Valid() && socketOpen && writer == Idle
      modifies this, channel
      ensures Valid() && socketOpen
      ensures channel.subscribers == old(channel.subscribers) + {this}
      ensures outputQueue == old(outputQueue) && inputBuffer == old(inputBuffer)
      ensures inputDeadline == ExpiresFromNow(now, Timeout)
      ensures outputQueue == [] ==>
                writer == AwaitingWake && nonEmptyOutputQueue == PosInfin && outputDeadline == old(outputDeadline)
      ensures outputQueue != [] ==> writer == Writing(outputQueue[0]) && outputDeadline == ExpiresFromNow(now, Timeout)
    {
      channel.Join(this);
      StartRead(now);
      AwaitOutput(now);
    }

    /** Appends the frame of `msg` at the back of the queue and fires the write-wake signal. */
    method Deliver(msg: string)
      requires Valid()
      modifies this`outputQueue, this`nonEmptyOutputQueue
      ensures Valid()
      ensures outputQueue == old(outputQueue) + [Frame(msg)]
      ensures nonEmptyOutputQueue == NegInfin
    {
      outputQueue := outputQueue + [Frame(msg)];
      nonEmptyOutputQueue := NegInfin;
    }

    /**
     * Leaves the channel and closes the socket. Cancelling the timers only
     * makes their outstanding waits complete early, and every handler returns
     * at once on a stopped session, so nothing else changes. A second call
     * changes nothing.
     */
    method Stop()
      modifies this`socketOpen, channel
      ensures Stopped()
      ensures channel.subscribers == old(channel.subscribers) - {this}
      ensures old(Stopped()) && this !in old(channel.subscribers) ==>
                unchanged(this) && channel.subscribers == old(channel.subscribers)
    {
      channel.Leave(this);
      socketOpen := false;
      assert this !in old(channel.subscribers) ==> channel.subscribers == old(channel.subscribers);
    }

    /** Re-arms the input deadline; the read itself is outstanding from now on. */
    method StartRead(now: int)
      modifies this`inputDeadline
      ensures inputDeadline == ExpiresFromNow(now, Timeout)
    {
      inputDeadline := ExpiresFromNow(now, Timeout);
    }

    /**
     * A read completed. On error the session stops. Otherwise one line is
     * taken from the input buffer (the newline is consumed and dropped, what
     * follows it stays): a non-empty line is broadcast to every subscriber,
     * this session included when it is joined; an empty line is a heartbeat,
     * answered by a bare newline only when nothing was queued. Then the next
     * read is started. Nothing happens on a stopped session.
     */
    method HandleRead(ok: bool, now: int)
      requires Valid()
      requires forall s :: s in channel.subscribers ==> s.Valid()
      modifies this, channel, channel.subscribers`outputQueue, channel.subscribers`nonEmptyOutputQueue
      ensures Valid()
      ensures forall s :: s in old(channel.subscribers) ==> s.Valid()
      ensures writer == old(writer) && outputDeadline == old(outputDeadline)
      ensures old(Stopped()) ==> unchanged(this) && unchanged(channel)
      ensures old(Stopped()) ==> forall s :: s in old(channel.subscribers) ==> unchanged(s)
      ensures old(socketOpen) && !ok ==>
                && Stopped()
                && channel.subscribers == old(channel.subscribers) - {this}
                && outputQueue == old(outputQueue) && inputBuffer == old(inputBuffer)
                && forall s :: s in old(channel.subscribers) ==> s.outputQueue == old(s.outputQueue)
      ensures old(socketOpen) && ok ==>
                var sp := SplitLine(old(inputBuffer));
                && socketOpen
                && channel.subscribers == old(channel.subscribers)
                && inputBuffer == sp.rest
                && inputDeadline == ExpiresFromNow(now, Timeout)
                && (sp.line != [] ==>
                      && (forall s :: s in old(channel.subscribers) ==>
                            s.outputQueue == old(s.outputQueue) + [Frame(sp.line)] && s.nonEmptyOutputQueue == NegInfin)
                      && (this !in old(channel.subscribers) ==> outputQueue == old(outputQueue)))
                && (sp.line == [] ==>
                      && (forall s :: s in old(channel.subscribers) && s != this ==> s.outputQueue == old(s.outputQueue))
                      && (old(outputQueue) == [] ==> outputQueue == ["\n"] && nonEmptyOutputQueue == NegInfin)
                      && (old(outputQueue) != [] ==> outputQueue == old(outputQueue)))
    {
      if Stopped() {
        return;
      }
      if !ok {
        Stop();
      } else {
        TakeLine();
        StartRead(now);
      }
    }

    /**
     * Takes one line from the input buffer, the way `std::getline` does on
     * an `std::istream` over it, and acts on it: broadcast when non-empty,
     * heartbeat reply when empty and nothing is queued.
     */
    method TakeLine()
      requires Valid() && socketOpen
      requires forall s :: s in channel.subscribers ==> s.Valid()
      modifies this`inputBuffer, this`outputQueue, this`nonEmptyOutputQueue
      modifies channel.subscribers`outputQueue, channel.subscribers`nonEmptyOutputQueue
      ensures Valid()
      ensures forall s :: s in channel.subscribers ==> s.Valid()
      ensures var sp := SplitLine(old(inputBuffer));
              && inputBuffer == sp.rest
              && (sp.line != [] ==>
                    && (forall s :: s in channel.subscribers ==>
                          s.outputQueue == old(s.outputQueue) + [Frame(sp.line)] && s.nonEmptyOutputQueue == NegInfin)
                    && (this !in channel.subscribers ==> outputQueue == old(outputQueue)))
              && (sp.line == [] ==>
                    && (forall s :: s in channel.subscribers && s != this ==> s.outputQueue == old(s.outputQueue))
                    && (old(outputQueue) == [] ==> outputQueue == ["\n"] && nonEmptyOutputQueue == NegInfin)
                    && (old(outputQueue) != [] ==> outputQueue == old(outputQueue)))
    {
      var got := GetLine(Over(inputBuffer));
      ghost var sp := SplitLine(inputBuffer);
      assert got.value == Some(sp.line) && got.st.rest == sp.rest;
      var msg := got.value.GetOr("");
      inputBuffer := got.st.rest;
      if msg != [] {
        channel.Deliver(msg);
      } else if outputQueue == [] {
        outputQueue := outputQueue + ["\n"];
        nonEmptyOutputQueue := NegInfin;
      }
    }

    /**
     * The write loop's resting point: with an empty queue it resets the
     * wake signal and waits on it; otherwise it writes the front frame.
     * Nothing happens on a stopped session.
     */
    method AwaitOutput(now: int)
      requires Valid() && !writer.Writing?
      modifies this`nonEmptyOutputQueue, this`writer, this`outputDeadline
      ensures Valid()
      ensures old(Stopped()) ==> unchanged(this)
      ensures old(socketOpen) && outputQueue == [] ==>
                writer == AwaitingWake && nonEmptyOutputQueue == PosInfin && outputDeadline == old(outputDeadline)
      ensures old(socketOpen) && outputQueue != [] ==>
                && writer == Writing(outputQueue[0])
                && outputDeadline == ExpiresFromNow(now, Timeout)
                && nonEmptyOutputQueue == old(nonEmptyOutputQueue)
    {
      if Stopped() {
        return;
      }
      if outputQueue == [] {
        nonEmptyOutputQueue := PosInfin;
        writer := AwaitingWake;
      } else {
        StartWrite(now);
      }
    }

    /** Re-arms the output deadline and writes the frame at the front of the queue. */
    method StartWrite(now: int)
      requires outputQueue != []
      modifies this`outputDeadline, this`writer
      ensures outputDeadline == ExpiresFromNow(now, Timeout)
      ensures writer == Writing(outputQueue[0])
    {
      outputDeadline := ExpiresFromNow(now, Timeout);
      writer := Writing(outputQueue[0]);
    }

    /**
     * The outstanding write completed. On success exactly the frame that was
     * written is popped from the front and the write loop continues; on error
     * the session stops. Nothing happens on a stopped session.
     */
    method HandleWrite(ok: bool, now: int)
      requires Valid() && writer.Writing?
      modifies this, channel
      ensures Valid()
      ensures inputBuffer == old(inputBuffer) && inputDeadline == old(inputDeadline)
      ensures old(Stopped()) ==> unchanged(this) && unchanged(channel)
      ensures old(socketOpen) && !ok ==>
                && Stopped()
                && channel.subscribers == old(channel.subscribers) - {this}
                && outputQueue == old(outputQueue)
      ensures old(socketOpen) && ok ==>
                && socketOpen
                && channel.subscribers == old(channel.subscribers)
                && old(outputQueue[0]) == old(writer.frame)
                && outputQueue == old(outputQueue[1..])
                && (outputQueue == [] ==>
                      writer == AwaitingWake && nonEmptyOutputQueue == PosInfin && outputDeadline == old(outputDeadline))
                && (outputQueue != [] ==>
                      writer == Writing(outputQueue[0]) && outputDeadline == ExpiresFromNow(now, Timeout))
    {
      if Stopped() {
        return;
      }
      if ok {
        outputQueue := outputQueue[1..];
        writer := Idle;
        AwaitOutput(now);
      } else {
        Stop();
      }
    }

    /** The deadline a watchdog watches. */
    function DeadlineOf(which: Watchdog): Expiry
      reads this
    {
      match which
      case InputWatchdog => inputDeadline
      case OutputWatchdog => outputDeadline
    }

    /**
     * A watchdog woke up: the session stops exactly when the watched deadline
     * is at or before `now`; otherwise the watchdog waits again and nothing
     * changes. Nothing happens on a stopped session.
     */
    method CheckDeadline(which: Watchdog, now: int)
      modifies this`socketOpen, channel
      ensures old(Stopped()) ==> unchanged(this) && unchanged(channel)
      ensures old(socketOpen) ==> (Stopped() <==> Expired(DeadlineOf(which), now))
      ensures old(socketOpen) && Expired(DeadlineOf(which), now) ==>
                channel.subscribers == old(channel.subscribers) - {this}
      ensures !(old(socketOpen) && Expired(DeadlineOf(which), now)) ==>
                channel.subscribers == old(channel.subscribers)
    {
      if Stopped() {
        return;
      }
      if Expired(DeadlineOf(which), now) {
        Stop();
      }
    }

    /**
     * The input watchdog: a session that started a read at `t` and has
     * received no line since is stopped by a watchdog wake-up at `now`
     * exactly when `Timeout` seconds have passed.
     */
    method InputWatchdogWindow(t: int, now: int)
      requires socketOpen
      modifies this, channel
      ensures Stopped() <==> now - t >= Timeout
    {
      StartRead(t);
      CheckDeadline(InputWatchdog, now);
    }

    /**
     * The output watchdog: the output deadline is not reset when the queue
     * drains, so a session whose last frame was written successfully, the
     * write having started at `t`, is still stopped by a watchdog wake-up at
     * `now` once `Timeout` seconds have passed, although it has nothing left
     * to write.
     */
    method OutputWatchdogWindow(t: int, done: int, now: int)
      requires Valid() && socketOpen && |outputQueue| == 1
      modifies this, channel
      ensures outputQueue == []
      ensures Stopped() <==> now - t >= Timeout
    {
      StartWrite(t);
      HandleWrite(true, done);
      CheckDeadline(OutputWatchdog, now);
    }
  }

  /** The listener: accepts connections, backfills them from the replay cache, publishes. */
  class Server {
    const channel: Channel
    var cache: ReplayCache.Cache
    /** The session handed to the outstanding `async_accept`. */
    var pendingSession: TcpSession
    /** Every session this server has created. */
    ghost var sessions: set<TcpSession>

    /**
     * The broker-wide invariant, apart from the state of the socket of the
     * session waiting to be accepted: the cache keys are 1..n; every
     * subscriber is a session of this server; every session is well formed
     * and, once past acceptance, is joined exactly when its socket is open;
     * the session waiting to be accepted is untouched and not joined.
     */
    ghost predicate Coherent()
      reads this, channel, sessions
    {
      && ReplayCache.Contiguous(cache)
      && pendingSession in sessions
      && channel.subscribers <= sessions
      && pendingSession.writer == Idle && pendingSession.outputQueue == []
      && pendingSession !in channel.subscribers
      && forall s :: s in sessions ==>
           && s.channel == channel
           && s.Valid()
           && (s != pendingSession ==> (s in channel.subscribers <==> s.socketOpen))
    }

    /** Between events the session waiting to be accepted also has a closed socket. */
    ghost predicate Valid()
      reads this, channel, sessions
    {
      Coherent() && !pendingSession.socketOpen
    }

    /** Creates the channel and the first session to accept into. */
    constructor()
      ensures Valid() && fresh(channel) && fresh(pendingSession)
      ensures cache == map[] && channel.subscribers == {} && sessions == {pendingSession}
    {
      var ch := new Channel();
      var s := new TcpSession(ch);
      channel := ch;
      cache := map[];
      pendingSession := s;
      sessions := {s};
    }

    /** Creates a fresh session and hands it to the next accept. */
    method StartAccept()
      modifies this`pendingSession, this`sessions
      ensures fresh(pendingSession) && pendingSession.Fresh() && pendingSession.Valid()
      ensures pendingSession.channel == channel
      ensures sessions == old(sessions) + {pendingSession}
    {
      pendingSession := new TcpSession(channel);
      sessions := sessions + {pendingSession};
    }

    /**
     * An accept completed, `ok` telling whether it succeeded (and so whether
     * the session's socket is open). On success the whole cache is delivered
     * into the new session in key order and only then is the session started,
     * which joins it: its queue is exactly the backlog, one frame per cached
     * message. On error the session is neither started nor joined. Either way
     * the next accept is armed.
     */
    method HandleAccept(session: TcpSession, ok: bool, now: int)
      requires Coherent() && session == pendingSession && session.socketOpen == ok
      modifies this, session, channel
      ensures Valid()
      ensures cache == old(cache)
      ensures fresh(pendingSession) && sessions == old(sessions) + {pendingSession}
      ensures ok ==>
                && session.outputQueue == Frames(ReplayCache.Log(cache))
                && channel.subscribers == old(channel.subscribers) + {session}
                && session.socketOpen
                && session.inputDeadline == ExpiresFromNow(now, Timeout)
      ensures !ok ==> channel.subscribers == old(channel.subscribers) && unchanged(session)
    {
      if ok {
        var k := 1;
        while k <= |cache|
          invariant 1 <= k <= |cache| + 1
          invariant session.outputQueue == Frames(ReplayCache.Log(cache)[..k - 1])
          invariant session.Valid() && session.writer == Idle && session.socketOpen
          invariant channel.subscribers == old(channel.subscribers)
          invariant session.channel == channel
          modifies session`outputQueue, session`nonEmptyOutputQueue
        {
          var log := ReplayCache.Log(cache);
          assert log[..k] == log[..k - 1] + [cache[k]];
          FramesAppend(log[..k - 1], cache[k]);
          session.Deliver(cache[k]);
          k := k + 1;
        }
        assert ReplayCache.Log(cache)[..|cache|] == ReplayCache.Log(cache);
        session.Start(now);
      }
      StartAccept();
    }

    /**
     * Stores `m` under the next sequence number, then delivers it to every
     * current subscriber.
     */
    method PublishMessage(m: string)
      requires Valid()
      modifies this`cache, channel.subscribers`outputQueue, channel.subscribers`nonEmptyOutputQueue
      ensures Valid()
      ensures cache == ReplayCache.Append(old(cache), m)
      ensures ReplayCache.Log(cache) == ReplayCache.Log(old(cache)) + [m]
      ensures forall s :: s in channel.subscribers ==> s.outputQueue == old(s.outputQueue) + [Frame(m)]
    {
      ReplayCache.LogAppend(cache, m);
      cache := ReplayCache.Append(cache, m);
      channel.Deliver(m);
    }
  }
}
