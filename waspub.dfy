/**
 * The tutorial publisher's per-client session (`talk_to_client`) and its
 * global registry of started sessions (`clients`). A client subscribes with a
 * `subscribe <topic>` line and keeps itself alive with `ping`; a session that
 * sees no ping within the check period is stopped.
 *
 * Socket operations are abstracted: the bytes a read delivered are already in
 * `readBuffer`, and each `async_write_some` is recorded by appending the
 * bytes it was handed to `writes`.
 */
module Waspub {
  import opened Text
  import opened Istream
  import opened Deadline
  import StdAlgo

  /** The size of each session's read and write buffers (`max_msg`). */
  const MaxMsg: nat := 1024

  /** How long after a read is started the ping check fires (milliseconds). */
  const PingCheckPeriod: int := 5000

  /** The replies to a subscription and to a ping. */
  const SubscribedOk: string := "subscribed ok\n"
  const PingOk: string := "ping ok\n"

  /** What `on_read` makes of a message. */
  datatype Request = Subscribe | Ping | Invalid

  /** `subscribe` requests are recognised first, then `ping`, by their prefix. */
  function ClassifyRequest(msg: string): (r: Request)
    ensures r == Subscribe <==> StartsWith(msg, "subscribe")
    ensures r == Ping <==> !StartsWith(msg, "subscribe") && StartsWith(msg, "ping")
  {
    FoundAtStartIffPrefix(msg, "subscribe");
    FoundAtStartIffPrefix(msg, "ping");
    if Find(msg, "subscribe") == Some(0) then Subscribe
    else if Find(msg, "ping") == Some(0) then Ping
    else Invalid
  }

  /**
   * `in >> topic_ >> topic_` on an `istringstream` over `msg`: the topic
   * becomes the second word, or the first when there is only one, and stays
   * as it was when there is none (a failed extraction leaves its target
   * alone).
   */
  function SubscribedTopic(msg: string, topic: string): (t: string)
    ensures |Words(msg)| >= 2 ==> t == Words(msg)[1]
    ensures |Words(msg)| == 1 ==> t == Words(msg)[0]
    ensures Words(msg) == [] ==> t == topic
  {
    ExtractTwice(msg, topic).1
  }

  /** The registry of started sessions (the global `clients` vector). */
  class Clients {
    var items: seq<TalkToClient>

    constructor()
      ensures items == []
    {
      items := [];
    }

    /** No session is registered twice, and every registered session is started. */
    ghost predicate Valid()
      reads this, items
    {
      && StdAlgo.Distinct(items)
      && forall i :: 0 <= i < |items| ==> items[i].started
    }
  }

  class TalkToClient {
    var started: bool
    var topic: string
    const readBuffer: array<char>
    const writeBuffer: array<char>
    /** The expiry of the ping-check timer (`timer_`). */
    var pingDeadline: Expiry
    /** The buffers handed to `async_write_some`, oldest first. */
    var writes: seq<string>

    ghost predicate Valid()
      reads this
    {
      readBuffer.Length == MaxMsg && writeBuffer.Length == MaxMsg && readBuffer != writeBuffer
    }

    constructor()
      ensures Valid() && !started && topic == [] && writes == [] && pingDeadline == PosInfin
      ensures fresh(readBuffer) && fresh(writeBuffer)
    {
      started := false;
      topic := [];
      readBuffer := new char[MaxMsg];
      writeBuffer := new char[MaxMsg];
      pingDeadline := PosInfin;
      writes := [];
    }

    /** Marks the session started, registers it at the back of `clients`, and starts reading. */
    method Start(clients: Clients, now: int)
      requires clients.Valid() && !started
      modifies this`started, this`pingDeadline, clients
      ensures started && clients.Valid()
      ensures clients.items == old(clients.items) + [this]
      ensures pingDeadline == ExpiresFromNow(now, PingCheckPeriod)
    {
      started := true;
      clients.items := clients.items + [this];
      DoRead(now);
    }

    /**
     * A no-op on a session that is not started. Otherwise the session is
     * marked stopped (its socket closed) and its one entry is erased from
     * `clients`, every other entry keeping its place in the order.
     */
    method Stop(clients: Clients)
      requires clients.Valid() && (started ==> this in clients.items)
      modifies this`started, clients
      ensures !started && clients.Valid()
      ensures !old(started) ==> clients.items == old(clients.items)
      ensures old(started) ==> clients.items == StdAlgo.Without(old(clients.items), this)
      ensures this !in clients.items
    {
      if !started {
        return;
      }
      started := false;
      var i := StdAlgo.FindFirst(clients.items, this);
      StdAlgo.EraseFound(clients.items, i, this);
      clients.items := clients.items[..i] + clients.items[i + 1..];
    }

    /**
     * A read completed with `bytes` bytes in the buffer. An error stops the
     * session, and a stopped session processes nothing. Otherwise a
     * `subscribe` request records the topic and answers `subscribed ok`, a
     * `ping` answers `ping ok`, and anything else gets no answer.
     */
    method OnRead(clients: Clients, err: bool, bytes: nat)
      requires Valid() && clients.Valid() && (started ==> this in clients.items)
      requires bytes <= readBuffer.Length
      modifies this`started, this`topic, this`writes, writeBuffer, clients
      ensures clients.Valid()
      ensures err ==> !started && topic == old(topic) && writes == old(writes)
      ensures err && old(started) ==> clients.items == StdAlgo.Without(old(clients.items), this)
      ensures err && !old(started) ==> clients.items == old(clients.items)
      ensures !err ==> started == old(started) && clients.items == old(clients.items)
      ensures !(!err && old(started)) ==> topic == old(topic) && writes == old(writes)
      ensures !err && old(started) ==>
                var msg := readBuffer[..bytes];
                match ClassifyRequest(msg)
                case Subscribe =>
                  topic == SubscribedTopic(msg, old(topic)) && writes == old(writes) + [SubscribedOk]
                case Ping => topic == old(topic) && writes == old(writes) + [PingOk]
                case Invalid => topic == old(topic) && writes == old(writes)
    {
      if err {
        Stop(clients);
      }
      if !started {
        return;
      }
      var msg := readBuffer[..bytes];
      match ClassifyRequest(msg)
      case Subscribe => OnSubscribe(msg);
      case Ping => OnPing();
      case Invalid =>
    }

    /**
     * Records the second word of the request as the topic and answers
     * `subscribed ok`. The write neither reads nor changes the topic, so the
     * two steps are taken here in the opposite order to the source.
     */
    method OnSubscribe(msg: string)
      requires Valid() && started
      modifies this`topic, this`writes, writeBuffer
      ensures topic == SubscribedTopic(msg, old(topic))
      ensures writes == old(writes) + [SubscribedOk]
    {
      DoWrite(SubscribedOk);
      topic := SubscribedTopic(msg, topic);
    }

    /** Answers `ping ok`. */
    method OnPing()
      requires Valid() && started
      modifies this`writes, writeBuffer
      ensures writes == old(writes) + [PingOk]
    {
      DoWrite(PingOk);
    }

    /**
     * The ping-check timer's wait completed. An aborted wait (the timer was
     * re-armed by a new read) changes nothing; a wait that ran out stops the
     * session.
     */
    method OnCheckPing(clients: Clients, err: bool)
      requires clients.Valid() && (started ==> this in clients.items)
      modifies this`started, clients
      ensures clients.Valid()
      ensures err ==> started == old(started) && clients.items == old(clients.items)
      ensures !err ==> !started && this !in clients.items
      ensures !err && old(started) ==> clients.items == StdAlgo.Without(old(clients.items), this)
      ensures !err && !old(started) ==> clients.items == old(clients.items)
    {
      if err {
        return;
      }
      Stop(clients);
    }

    /** Arms the ping check `PingCheckPeriod` from now; re-arming aborts the previous wait. */
    method PostCheckPing(now: int)
      modifies this`pingDeadline
      ensures pingDeadline == ExpiresFromNow(now, PingCheckPeriod)
    {
      pingDeadline := ExpiresFromNow(now, PingCheckPeriod);
    }

    /** A write completed: read the next request. */
    method OnWrite(now: int)
      modifies this`pingDeadline
      ensures pingDeadline == ExpiresFromNow(now, PingCheckPeriod)
    {
      DoRead(now);
    }

    /** Starts a read (outstanding from now on) and arms the ping check. */
    method DoRead(now: int)
      modifies this`pingDeadline
      ensures pingDeadline == ExpiresFromNow(now, PingCheckPeriod)
    {
      PostCheckPing(now);
    }

    /**
     * The completion condition of a read: 0 (stop reading) on error or once a
     * newline is among the first `bytes` bytes, 1 (read one more byte)
     * otherwise.
     */
    method ReadComplete(err: bool, bytes: nat) returns (more: nat)
      requires bytes <= readBuffer.Length
      ensures more == 0 <==> err || '\n' in readBuffer[..bytes]
      ensures more <= 1
    {
      if err {
        return 0;
      }
      var i := StdAlgo.FindFirst(readBuffer[..bytes], '\n');
      more := if i < bytes then 0 else 1;
    }

    /**
     * A no-op on a session that is not started. Otherwise `msg` is copied to
     * the front of the write buffer, which must hold it, and exactly those
     * bytes are handed to the socket.
     */
    method DoWrite(msg: string)
      requires Valid() && (started ==> |msg| <= MaxMsg)
      modifies this`writes, writeBuffer
      ensures !started ==> writes == old(writes) && unchanged(writeBuffer)
      ensures started ==> writeBuffer[..|msg|] == msg && writeBuffer[|msg|..] == old(writeBuffer[|msg|..])
      ensures started ==> writes == old(writes) + [msg]
    {
      if !started {
        return;
      }
      StdAlgo.CopyInto(msg, writeBuffer);
      writes := writes + [writeBuffer[..|msg|]];
    }
  }
}
