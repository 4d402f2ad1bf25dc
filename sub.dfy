/**
 * The tutorial subscriber's connection (`talk_to_svr`): once connected it
 * subscribes to its topic, then answers every `msg <topic> <data>` line it
 * receives with `recv`.
 *
 * Socket operations are abstracted as in the publisher: the bytes a read
 * delivered are already in `readBuffer`, and each `async_write_some` is
 * recorded by appending the bytes it was handed to `writes`.
 */
module Sub {
  import opened Text
  import opened Istream
  import StdAlgo

  /** The size of the read and write buffers (`max_msg`). */
  const MaxMsg: nat := 1024

  /** The acknowledgement of a `msg` line. */
  const Recv: string := "recv\n"

  /** What `on_read` makes of a message from the publisher. */
  datatype Reply = Subscribed | Msg | Invalid

  /** `subscribed` acknowledgements are recognised first, then `msg` lines, by their prefix. */
  function ClassifyReply(msg: string): (r: Reply)
    ensures r == Subscribed <==> StartsWith(msg, "subscribed")
    ensures r == Msg <==> !StartsWith(msg, "subscribed") && StartsWith(msg, "msg")
  {
    FoundAtStartIffPrefix(msg, "subscribed");
    FoundAtStartIffPrefix(msg, "msg");
    if Find(msg, "subscribed") == Some(0) then Subscribed
    else if Find(msg, "msg") == Some(0) then Msg
    else Invalid
  }

  /** The topic and data `on_msg` takes out of a message. */
  datatype Fields = Fields(topic: string, data: string)

  /**
   * `iss >> topic >> topic; std::getline(iss, data)` on an `istringstream`
   * over `msg`, with both strings initially empty: the topic is the second
   * word (the first when there is only one), and the data is what follows it
   * up to the end of that line.
   */
  function ParseMsg(msg: string): (r: Fields)
    ensures |Words(msg)| >= 2 ==> r.topic == Words(msg)[1]
    ensures |Words(msg)| == 1 ==> r.topic == Words(msg)[0] && r.data == []
    ensures Words(msg) == [] ==> r.topic == [] && r.data == []
    ensures '\n' !in r.data
  {
    var (st, topic) := ExtractTwice(msg, []);
    var data := GetLine(st).value.GetOr([]);
    assert !st.Good() ==> data == [];
    Fields(topic, data)
  }

  /**
   * The data is the rest of the line after the first two words: the message
   * is those words (with the whitespace around them), then the data, then
   * either nothing or the newline that ended the line.
   */
  lemma ParsedDataFollowsTopic(msg: string) returns (head: string, tail: string)
    requires |Words(msg)| >= 2
    ensures Words(head) == Words(msg)[..2]
    ensures head != [] && !IsSpace(head[|head| - 1])
    ensures msg == head + ParseMsg(msg).data + tail
    ensures tail == [] || tail[0] == '\n'
  {
    head := ExtractTwiceConsumes(msg, []);
    var st := ExtractTwice(msg, []).0;
    var data := ParseMsg(msg).data;
    if st.Good() && '\n' in st.rest {
      var got := GetLine(st);
      tail := "\n" + got.st.rest;
      AppendAssoc(data, "\n", got.st.rest);
    } else {
      tail := [];
    }
    AppendAssoc(head, data, tail);
  }

  class TalkToSvr {
    var started: bool
    const topic: string
    const readBuffer: array<char>
    const writeBuffer: array<char>
    /** The buffers handed to `async_write_some`, oldest first. */
    var writes: seq<string>

    ghost predicate Valid()
      reads this
    {
      readBuffer.Length == MaxMsg && writeBuffer.Length == MaxMsg && readBuffer != writeBuffer
    }

    /** A connection starts out started, for the given topic. */
    constructor(topic: string)
      ensures Valid() && started && this.topic == topic && writes == []
      ensures fresh(readBuffer) && fresh(writeBuffer)
    {
      started := true;
      this.topic := topic;
      readBuffer := new char[MaxMsg];
      writeBuffer := new char[MaxMsg];
      writes := [];
    }

    /** A no-op when already stopped; otherwise marks the connection stopped (its socket closed). */
    method Stop()
      modifies this`started
      ensures !started
    {
      if !started {
        return;
      }
      started := false;
    }

    /** The connect completed: on success subscribe to the topic, on error stop. */
    method OnConnect(err: bool)
      requires Valid() && (!err && started ==> |"subscribe " + topic + "\n"| <= MaxMsg)
      modifies this`started, this`writes, writeBuffer
      ensures err ==> !started && writes == old(writes)
      ensures !err ==> started == old(started)
      ensures !err && old(started) ==> writes == old(writes) + ["subscribe " + topic + "\n"]
      ensures !err && !old(started) ==> writes == old(writes)
    {
      if !err {
        DoWrite("subscribe " + topic + "\n");
      } else {
        Stop();
      }
    }

    /**
     * A read completed with `bytes` bytes in the buffer. An error stops the
     * connection, and a stopped connection processes nothing. Otherwise a
     * `subscribed` acknowledgement is only logged, a `msg` line is parsed
     * and answered with `recv`, and anything else gets no answer.
     */
    method OnRead(err: bool, bytes: nat)
      requires Valid() && bytes <= readBuffer.Length
      modifies this`started, this`writes, writeBuffer
      ensures err ==> !started && writes == old(writes)
      ensures !err ==> started == old(started)
      ensures !err && old(started) ==>
                writes == old(writes) + (if ClassifyReply(readBuffer[..bytes]) == Msg then [Recv] else [])
      ensures !err && !old(started) ==> writes == old(writes)
    {
      if err {
        Stop();
      }
      if !started {
        return;
      }
      var msg := readBuffer[..bytes];
      match ClassifyReply(msg)
      case Subscribed =>
      case Msg =>
        var _ := OnMsg(msg);
      case Invalid =>
    }

    /** Takes the topic and data out of a `msg` line, then answers `recv`. */
    method OnMsg(msg: string) returns (fields: Fields)
      requires Valid() && started
      modifies this`writes, writeBuffer
      ensures fields == ParseMsg(msg)
      ensures writes == old(writes) + [Recv]
    {
      fields := ParseMsg(msg);
      DoWrite(Recv);
    }

    /**
     * The completion condition of a read: 0 (stop reading) on error or once a
     * newline is among the first `bytes` bytes, 1 (read one more byte)
     * otherwise.
     */
    method ReadComplete(err: bool, bytes: nat) returns (more: nat)
      requires bytes <= readBuffer.Length
      ensures more == 0 <==> err || '\n' in readBuffer[..bytes]
      ensures more <= 1
    {
      if err {
        return 0;
      }
      var i := StdAlgo.FindFirst(readBuffer[..bytes], '\n');
      more := if i < bytes then 0 else 1;
    }

    /**
     * A no-op when stopped. Otherwise `msg` is copied to the front of the
     * write buffer, which must hold it, and exactly those bytes are handed to
     * the socket.
     */
    method DoWrite(msg: string)
      requires Valid() && (started ==> |msg| <= MaxMsg)
      modifies this`writes, writeBuffer
      ensures !started ==> writes == old(writes) && unchanged(writeBuffer)
      ensures started ==> writeBuffer[..|msg|] == msg && writeBuffer[|msg|..] == old(writeBuffer[|msg|..])
      ensures started ==> writes == old(writes) + [msg]
    {
      if !started {
        return;
      }
      StdAlgo.CopyInto(msg, writeBuffer);
      writes := writes + [writeBuffer[..|msg|]];
    }
  }
}
