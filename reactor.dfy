/**
 * The single-threaded reactor that drives the broker. Each completion the
 * event loop can deliver is an `Event`; `Dispatch` runs the one handler it
 * triggers, atomically, and keeps the broker-wide invariant. The clock is part
 * of the loop's state and only moves forward.
 */
module Reactor {
  import opened Istream
  import opened Wire
  import opened Deadline
  import opened Broker
  import ReplayCache

  datatype Event =
    | Accepted(ok: bool)
    | Published(msg: string)
    | ReadCompleted(session: TcpSession, ok: bool, received: string)
    | WriteCompleted(session: TcpSession, ok: bool)
    | WakeFired(session: TcpSession)
    | WatchdogFired(session: TcpSession, which: Watchdog)
    | ClockAdvanced(time: int)

  class EventLoop {
    const server: Server
    var now: int

    ghost predicate Valid()
      reads this, server, server.channel, server.sessions
    {
      server.Valid()
    }

    /**
     * The completions the library can deliver in the current state: a read
     * succeeds only on an open socket and once a newline has arrived; a write
     * completes only while one is outstanding, and succeeds only on an open
     * socket; a wait on the wake signal completes only when the signal has
     * fired or the session was stopped (which cancels it); a watchdog may wake
     * up at any time, since re-arming its deadline cancels its wait; the
     * clock never goes back.
     */
    ghost predicate Enabled(e: Event)
      reads this, server, server.sessions
    {
      match e
      case Accepted(_) => true
      case Published(_) => true
      case ReadCompleted(s, ok, received) =>
        s in server.sessions && (ok ==> s.socketOpen && '\n' in s.inputBuffer + received)
      case WriteCompleted(s, ok) =>
        s in server.sessions && s.writer.Writing? && (ok ==> s.socketOpen)
      case WakeFired(s) =>
        s in server.sessions && s.writer == AwaitingWake && (Expired(s.nonEmptyOutputQueue, now) || s.Stopped())
      case WatchdogFired(s, _) => s in server.sessions
      case ClockAdvanced(t) => now <= t
    }

    constructor(start: int)
      ensures Valid() && now == start && fresh(server)
      ensures server.cache == map[] && server.channel.subscribers == {}
    {
      server := new Server();
      now := start;
    }

    /**
     * Runs the handler `e` triggers. The invariant is kept, the clock does
     * not go back, sessions are never forgotten, the cache only grows by
     * publishing, and a session past acceptance whose socket is closed stays
     * closed.
     */
    method Dispatch(e: Event)
      requires Valid() && Enabled(e)
      modifies this, server, server.channel, server.sessions
      ensures Valid()
      ensures now >= old(now)
      ensures server.sessions >= old(server.sessions)
      ensures ReplayCache.Log(server.cache) ==
                ReplayCache.Log(old(server.cache)) + (if e.Published? then [e.msg] else [])
      ensures forall s :: s in old(server.sessions) && s != old(server.pendingSession) && !old(s.socketOpen) ==>
                !s.socketOpen
    {
      match e
      case Accepted(ok) => OnAccepted(ok);
      case Published(m) => OnPublished(m);
      case ReadCompleted(s, ok, received) => OnReadCompleted(s, ok, received);
      case WriteCompleted(s, ok) => OnWriteCompleted(s, ok);
      case WakeFired(s) => OnWakeFired(s);
      case WatchdogFired(s, which) => OnWatchdogFired(s, which);
      case ClockAdvanced(t) => now := t;
    }

    /**
     * An accept completed; on success the library has opened the session's
     * socket. A successful accept leaves the new session joined with exactly
     * the backlog queued.
     */
    method OnAccepted(ok: bool)
      requires Valid()
      modifies server, server.channel, server.pendingSession
      ensures Valid()
      ensures server.cache == old(server.cache)
      ensures server.sessions == old(server.sessions) + {server.pendingSession}
      ensures ok ==>
                && old(server.pendingSession).socketOpen
                && old(server.pendingSession) in server.channel.subscribers
                && old(server.pendingSession).outputQueue == Frames(ReplayCache.Log(server.cache))
      ensures !ok ==> server.channel.subscribers == old(server.channel.subscribers)
      ensures forall s :: s in old(server.sessions) && s != old(server.pendingSession) ==> unchanged(s)
    {
      var s := server.pendingSession;
      if ok {
        s.socketOpen := true;
      }
      server.HandleAccept(s, ok, now);
    }

    /** A publish was posted to the loop. */
    method OnPublished(m: string)
      requires Valid()
      modifies server`cache, server.channel.subscribers`outputQueue, server.channel.subscribers`nonEmptyOutputQueue
      ensures Valid()
      ensures ReplayCache.Log(server.cache) == ReplayCache.Log(old(server.cache)) + [m]
      ensures forall s :: s in server.channel.subscribers ==> s.outputQueue == old(s.outputQueue) + [Frame(m)]
    {
      server.PublishMessage(m);
    }

    /**
     * A read on `s` completed, the bytes it brought being `received`. A
     * non-empty line is echoed to its sender as well, since an open session
     * is always joined.
     */
    method OnReadCompleted(s: TcpSession, ok: bool, received: string)
      requires Valid() && Enabled(ReadCompleted(s, ok, received))
      modifies s, server.channel, server.channel.subscribers`outputQueue, server.channel.subscribers`nonEmptyOutputQueue
      ensures Valid()
      ensures ok ==>
                var line := SplitLine(old(s.inputBuffer) + received).line;
                line != [] ==> s.outputQueue == old(s.outputQueue) + [Frame(line)]
      ensures !old(s.socketOpen) ==> !s.socketOpen
    {
      if ok {
        s.inputBuffer := s.inputBuffer + received;
      }
      s.HandleRead(ok, now);
    }

    /** The outstanding write of `s` completed. */
    method OnWriteCompleted(s: TcpSession, ok: bool)
      requires Valid() && Enabled(WriteCompleted(s, ok))
      modifies s, server.channel
      ensures Valid()
      ensures !old(s.socketOpen) ==> !s.socketOpen
    {
      s.HandleWrite(ok, now);
    }

    /**
     * The wait of `s` on its wake signal completed. On a live session this
     * always finds output and starts writing its front frame: no wake-up is
     * spurious.
     */
    method OnWakeFired(s: TcpSession)
      requires Valid() && Enabled(WakeFired(s))
      modifies s`nonEmptyOutputQueue, s`writer, s`outputDeadline
      ensures Valid()
      ensures old(s.socketOpen) ==> s.outputQueue != [] && s.writer == Writing(s.outputQueue[0])
    {
      s.AwaitOutput(now);
    }

    /** A watchdog of `s` woke up. */
    method OnWatchdogFired(s: TcpSession, which: Watchdog)
      requires Valid() && Enabled(WatchdogFired(s, which))
      modifies s`socketOpen, server.channel
      ensures Valid()
      ensures old(s.socketOpen) ==> (s.Stopped() <==> Expired(s.DeadlineOf(which), now))
      ensures !old(s.socketOpen) ==> !s.socketOpen
    {
      s.CheckDeadline(which, now);
    }
  }
}
