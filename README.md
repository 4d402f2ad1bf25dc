# A verified model of a line-delimited publish/subscribe broker

This project models the core of a small publish/subscribe broker over TCP
and of a tutorial publisher/subscriber pair. The broker and the tutorial pair
are C++ programs built on Boost.Asio.

- **The broker** (`server.cc`). Clients send newline-terminated lines. A
  non-empty line is broadcast to every joined session, the sender included.
  An empty line is a heartbeat: the broker answers it with a bare newline
  only when nothing else is queued. Every published message is kept in a
  replay cache under the sequence number `|cache| + 1`. A newly accepted
  connection receives the whole cache, in sequence order, before it joins
  the channel. Each session runs a read loop and a write loop, plus two 30-second
  watchdogs, one for input and one for output. A watchdog stops the session
  when its deadline is at or before the current time.
- **The tutorial publisher** (`packt/waspub.cc`). It keeps a global registry
  of started sessions. A client subscribes with `subscribe <topic>` and keeps
  itself alive with `ping`. A session stops when its 5-second ping check runs
  out.
- **The tutorial subscriber** (`packt/sub.cc`). Once connected, it sends
  `subscribe <topic>`. It answers every `msg <topic> <data>` line with
  `recv`.

The modules are:

| module | file | contents |
|---|---|---|
| `Text` | text.dfy | C-locale whitespace, `std::string::find`, and the whitespace-separated words of a string (`Words`), defined character by character |
| `Istream` | istream.dfy | `std::getline` and `operator>>` on a `std::istream`, modelled as a stream of remaining characters with its eofbit and failbit; each extraction is proved against `Words` and `SplitLine` |
| `Deadline` | deadline.dfy | `deadline_timer` expiries, with the `neg_infin` and `pos_infin` sentinels |
| `Wire` | wire.dfy | the newline-terminated frame of a message |
| `ReplayCache` | replay.dfy | the `std::map<long, std::string>` replay cache and its key-order log |
| `Broker` | server.dfy | the `Channel`, `TcpSession` and `Server` classes as Dafny classes whose methods update their fields in place |
| `Reactor` | reactor.dfy | the single-threaded event loop: each completion it can deliver is an `Event`; `Dispatch` runs that event's handler and keeps the broker-wide invariant |
| `StdAlgo` | stdalgo.dfy | `std::find`, `std::copy` and the erase-after-find idiom, as loops and lemmas |
| `Waspub` | waspub.dfy | `talk_to_client` and the `clients` registry |
| `Sub` | sub.dfy | `talk_to_svr` |

The model abstracts the environment as follows:

- **Clock.** The clock reading is a parameter (`now`). In the reactor it is
  a field that only moves forward.
- **Reads.** The bytes a read delivered are already in the input buffer,
  or in `readBuffer` with a byte count.
- **Sockets.** A socket is reduced to whether it is open (the broker) or
  whether the session is started (the tutorial pair).
- **Writes.** In the broker, an outstanding write or wait is recorded in
  the session's `writer`. In the tutorial pair, each `async_write_some`
  appends the bytes it was handed to `writes`.
- **Timers.** A timer is its expiry.

### Behaviour worth noting

- Every `TcpSession::Deliver` fires the write-wake signal
  (`non_empty_output_queue_`), even when the queue was already non-empty
  (server.cc:84-87).
- The writer resets the write-wake signal to `pos_infin` when it finds the
  queue empty (server.cc:138-141). It leaves the signal fired when it finds
  the queue non-empty.
- The output deadline is re-armed when a write starts (server.cc:148) and is
  never reset afterwards. A session that has written everything it had is
  therefore still stopped by the output watchdog 30 seconds after its last
  write started (`Broker.TcpSession.OutputWatchdogWindow`).
- `Channel::Deliver` reaches every joined session exactly once; nothing is
  claimed about the order of the visits.
- A joined session receives its own non-empty lines too (server.cc:122).

## Model

| member | source | states |
|---|---|---|
| Text.FindFrom | packt/waspub.cc:68 | `find` returns the lowest position at or after the start where the pattern occurs, or `npos` when it occurs nowhere there |
| Text.Find | packt/waspub.cc:68 | `msg.find(p)` is the lowest position where `p` occurs, or `npos` when it occurs nowhere |
| Text.FoundAtStartIffPrefix | packt/waspub.cc:68-69 | `msg.find(p) == 0` holds exactly when `p` is a prefix of `msg` |
| Text.Words | packt/sub.cc:83 | the words that repeated `>>` extractions yield are non-empty runs of non-whitespace characters, and a string that starts with a non-space character has a first word that starts with that character |
| Text.WordsConcat | packt/sub.cc:83-84 | a string cut where the right-hand part starts with whitespace has the words of the left part followed by the words of the right part |
| Istream.SplitLine | server.cc:119 | the cut at the first newline: the line holds no newline; when a newline was found, the input is the line, the newline, then the rest; otherwise the line is the whole input |
| Istream.GetLine | server.cc:118-119 | `getline` on a stream that is not good extracts nothing and sets failbit; otherwise it yields the characters up to the first newline, consumes the newline, and sets eofbit (and failbit when nothing was extracted) on running out |
| Istream.SkipSpace | packt/waspub.cc:76 | the whitespace skipped before an extraction is a prefix of whitespace characters, and the remainder starts with a non-space or is empty |
| Istream.LeadingWord | packt/waspub.cc:76 | the characters one extraction takes form the longest prefix without whitespace |
| Istream.ExtractWord | packt/waspub.cc:76 | `>>` into a string fails on a stream that is not good or holds only whitespace; otherwise it yields the stream's first word, leaves the remaining words, and sets eofbit exactly when nothing is left |
| Istream.ExtractWordConsumes | packt/waspub.cc:76 | one successful extraction consumes a prefix of the stream whose only word is the extracted one, and which ends with that word's last character (the whitespace after the word stays in the stream) |
| Istream.ExtractTwice | packt/waspub.cc:75-76 | `in >> s >> s` leaves in `s` the second word, or the first when there is only one, or the old value when there is none; after two words the stream still holds exactly the remaining words |
| Istream.ExtractTwiceConsumes | packt/sub.cc:81-83 | two successful extractions consume a prefix of the message whose words are exactly its first two words, and which ends with the second word's last character |
| Deadline.Expired | server.cc:167 | `expires_at() <= now`: `neg_infin` has always passed, `pos_infin` never has, and a time has passed once the clock reaches it |
| Deadline.ExpiresFromNow | server.cc:105 | a deadline armed at clock reading `a` for `d` has passed at reading `t` exactly when `t - a >= d` |
| Wire.Frame | server.cc:85 | the frame of a message is the message followed by one newline, which ends the frame |
| Wire.Frames | server.cc:201-203 | the framed backlog has one frame per message, in order, each the message plus a newline |
| Wire.FramesAppend | server.cc:201-203 | framing one more message appends that message's frame |
| ReplayCache.Append | server.cc:211 | `cache_[cache_.size() + 1] = msg` keeps the keys exactly 1..n, stores the message under n + 1, and leaves every earlier entry as it was |
| ReplayCache.LogAppend | server.cc:210-213 | publishing appends the message at the end of the replay log, so key order is publish order |
| Broker.Channel.constructor | server.cc:49 | a channel starts with no subscribers |
| Broker.Channel.Join | server.cc:35-37 | joining is set insertion, so joining twice leaves one membership |
| Broker.Channel.Leave | server.cc:39-41 | leaving is set removal, and a no-op for a session that is not joined |
| Broker.Channel.Deliver | server.cc:43-46 | every joined session receives the message's frame exactly once, at the back of its queue, with its wake signal fired; nothing else changes |
| Broker.TcpSession.constructor | server.cc:56-65 | a new session has its three deadlines at `pos_infin`, an empty input buffer, an empty queue, no outstanding write and a closed socket |
| Broker.TcpSession.Stopped | server.cc:100-102 | a session is stopped exactly when its socket is closed |
| Broker.TcpSession.Start | server.cc:67-78 | starting joins the channel, arms the input deadline, and either writes the front frame (arming the output deadline) or waits on a reset wake signal with the output deadline left as it was |
| Broker.TcpSession.Deliver | server.cc:84-87 | the frame `msg + "\n"` goes at the back of the queue, every earlier entry stays, and the wake signal is fired |
| Broker.TcpSession.Stop | server.cc:90-98 | afterwards the session is stopped and out of the channel; a second call changes nothing |
| Broker.TcpSession.StartRead | server.cc:104-109 | every read re-arms the input deadline 30 seconds from now |
| Broker.TcpSession.HandleRead | server.cc:111-133 | a stopped session changes nothing; an error stops the session; otherwise the first line is consumed (what follows it stays buffered), a non-empty line reaches every joined session, the sender included, an empty line is answered by a bare newline only when the queue was empty, and the next read is armed |
| Broker.TcpSession.TakeLine | server.cc:117-129 | the line `getline` takes from the input buffer is broadcast when non-empty and otherwise answered as a heartbeat when nothing is queued |
| Broker.TcpSession.AwaitOutput | server.cc:135-145 | a stopped session changes nothing; with an empty queue the wake signal is reset and the writer waits on it; otherwise the front frame is written |
| Broker.TcpSession.StartWrite | server.cc:147-151 | a write is always of the front frame and re-arms the output deadline 30 seconds from now |
| Broker.TcpSession.HandleWrite | server.cc:153-162 | a stopped session changes nothing; a successful write pops exactly the frame that was written and continues the write loop, leaving the output deadline as it was when the queue has drained; an error stops the session |
| Broker.TcpSession.CheckDeadline | server.cc:164-172 | a stopped session changes nothing; otherwise the session stops exactly when the watched deadline is at or before now |
| Broker.TcpSession.InputWatchdogWindow | server.cc:104-109 | a session whose read started at `t` is stopped by the input watchdog at `now` exactly when `now - t >= 30` |
| Broker.TcpSession.OutputWatchdogWindow | server.cc:147-168 | after its last frame was written, the write having started at `t`, the queue is empty and the output watchdog still stops the session at `now` exactly when `now - t >= 30` |
| Broker.Server.constructor | server.cc:185-190 | the server starts with an empty cache, an empty channel and one session waiting to be accepted |
| Broker.Server.StartAccept | server.cc:192-197 | each accept is handed a fresh session that is not yet started |
| Broker.Server.HandleAccept | server.cc:199-208 | on success the new session's queue is exactly the framed cache in key order before it joins; on error it is neither started nor joined; either way the next accept is armed |
| Broker.Server.PublishMessage | server.cc:210-213 | the message is appended to the replay log and its frame to the queue of every joined session, and the broker-wide invariant is kept |
| Reactor.EventLoop.constructor | server.cc:232-235 | the loop starts with an empty cache and no subscribers, with the invariant holding |
| Reactor.EventLoop.Dispatch | server.cc:238 | every enabled completion keeps the broker-wide invariant (a joined session has an open socket and the other way round, and every queue entry is a frame), never moves the clock back, grows the replay log only by publishing, and never reopens a closed session |
| Reactor.EventLoop.OnAccepted | server.cc:195-196 | a successful accept leaves the new session joined, with exactly the backlog queued |
| Reactor.EventLoop.OnPublished | server.cc:236 | a posted publish reaches the replay log and every joined session |
| Reactor.EventLoop.OnReadCompleted | server.cc:106-108 | the line completed by the received bytes, when non-empty, is echoed into the sender's own queue |
| Reactor.EventLoop.OnWriteCompleted | server.cc:149-150 | a write completion keeps the invariant and never reopens a session |
| Reactor.EventLoop.OnWakeFired | server.cc:140-141 | a wake-up on a live session always finds output and writes its front frame, so no wake-up is spurious |
| Reactor.EventLoop.OnWatchdogFired | server.cc:71-77 | a watchdog stops a live session exactly when its deadline has passed |
| StdAlgo.FindFirst | packt/waspub.cc:53 | `std::find` yields the first position holding the value, or the end when there is none |
| StdAlgo.CopyInto | packt/waspub.cc:126 | `std::copy` puts the message in the first cells of the buffer and leaves the rest alone |
| StdAlgo.Without | packt/waspub.cc:53-54 | the registry without one session holds every other entry and not that one |
| StdAlgo.EraseFound | packt/waspub.cc:53-54 | erasing the found position of a session registered once removes exactly that session, keeps the other entries in order, and keeps the registry free of duplicates |
| Waspub.ClassifyRequest | packt/waspub.cc:68-70 | a request is a subscription exactly when it starts with `subscribe`, and a ping exactly when it does not but starts with `ping` |
| Waspub.SubscribedTopic | packt/waspub.cc:75-76 | the topic becomes the second word of the request, or its first word when it has only one, and stays when it has none |
| Waspub.Clients.constructor | packt/waspub.cc:17 | the registry starts empty |
| Waspub.TalkToClient.constructor | packt/waspub.cc:29-31 | a new session is not started, has no topic and has written nothing |
| Waspub.TalkToClient.Start | packt/waspub.cc:36-40 | starting marks the session started, registers it at the back of `clients`, and arms the ping check |
| Waspub.TalkToClient.Stop | packt/waspub.cc:47-55 | a no-op when not started; otherwise the session is stopped and its one registry entry is erased, the others keeping their order |
| Waspub.TalkToClient.OnRead | packt/waspub.cc:62-71 | an error stops the session, erasing its one registry entry when it was started and leaving the registry alone otherwise, and nothing is processed; a stopped session answers nothing; a subscription sets the topic and answers `subscribed ok`, a ping answers `ping ok`, anything else gets no answer |
| Waspub.TalkToClient.OnSubscribe | packt/waspub.cc:73-79 | the topic becomes the request's second word and the answer is `subscribed ok\n` |
| Waspub.TalkToClient.OnPing | packt/waspub.cc:81-84 | the answer is `ping ok\n` |
| Waspub.TalkToClient.OnCheckPing | packt/waspub.cc:86-92 | an aborted wait changes nothing; a wait that ran out stops the session, erasing its one registry entry when it was started and leaving the registry alone when it was already stopped |
| Waspub.TalkToClient.PostCheckPing | packt/waspub.cc:94-98 | the ping check is re-armed 5000 ms from now |
| Waspub.TalkToClient.OnWrite | packt/waspub.cc:100-102 | a completed write starts the next read, re-arming the ping check |
| Waspub.TalkToClient.DoRead | packt/waspub.cc:105-109 | every read re-arms the ping check |
| Waspub.TalkToClient.ReadComplete | packt/waspub.cc:111-116 | the completion condition is 0 exactly on error or once a newline is among the bytes read, and 1 otherwise |
| Waspub.TalkToClient.DoWrite | packt/waspub.cc:123-129 | a no-op when not started; otherwise the message fills the front of the write buffer and exactly those bytes are written |
| Sub.ClassifyReply | packt/sub.cc:63-66 | a reply is an acknowledgement exactly when it starts with `subscribed`, and a message line exactly when it does not but starts with `msg` |
| Sub.ParseMsg | packt/sub.cc:81-84 | the topic is the second word (the first when there is only one), and the data holds no newline and is empty unless there are two words |
| Sub.ParsedDataFollowsTopic | packt/sub.cc:83-84 | with two words, the message is a prefix holding exactly the first two words and ending with the second word's last character, then the data (with the whitespace that followed the topic), then nothing or the newline that ended the line |
| Sub.TalkToSvr.constructor | packt/sub.cc:22-23 | a connection starts out started, for its topic |
| Sub.TalkToSvr.Stop | packt/sub.cc:39-44 | afterwards the connection is stopped; a no-op when it already was |
| Sub.TalkToSvr.OnConnect | packt/sub.cc:49-53 | a successful connect writes exactly `subscribe <topic>\n`; an error stops the connection |
| Sub.TalkToSvr.OnRead | packt/sub.cc:55-67 | an error stops the connection and nothing is processed; a `msg` line is answered with `recv\n`, anything else gets no answer |
| Sub.TalkToSvr.OnMsg | packt/sub.cc:79-87 | the topic and data are those `ParseMsg` takes out, and the answer is `recv\n` |
| Sub.TalkToSvr.ReadComplete | packt/sub.cc:124-130 | the completion condition is 0 exactly on error or once a newline is among the bytes read, and 1 otherwise |
| Sub.TalkToSvr.DoWrite | packt/sub.cc:116-122 | a no-op when stopped; otherwise the message fills the front of the write buffer and exactly those bytes are written |

## Left out

- Socket and timer operations (`async_read_until`, `async_read`, `async_write`, `async_write_some`, `async_accept`, `async_connect`, `async_wait`) are foreign library calls. They become the reactor's events and the methods' parameters. A socket is reduced to open or closed, and a timer to its expiry.
- `boost::shared_ptr` and `enable_shared_from_this` lifetimes are not modelled. Dafny references stand for them. What remains is that every handler returns at once on a stopped session.
- `Stop` in the broker closes the socket and cancels the three timers. This is modelled as the closed socket alone: a cancelled wait completes with an error, and every broker handler returns at once on a stopped session.
- `stop` in the tutorial pair clears `started_` and closes the socket; it cancels no timer. The closed socket is modelled as the cleared flag. The pending ping check therefore still runs out later and calls `stop` again, which `Waspub.TalkToClient.OnCheckPing` states is a no-op. `on_write` has no started check and re-arms the ping check through `do_read`, as `Waspub.TalkToClient.OnWrite` does.
- The `main` functions are not modelled: argument handling, the global `io_service` and acceptor, and the thread that posts `PublishMessage` once a second. They are process start-up and a cross-thread hand-off; the reactor models the hand-off as a `Published` event.
- `client.cc` is not part of this model. It is the reference client, driven only by socket and timer completions.
- Console and error-stream logging is left out, including the millisecond wall-clock printouts in the publisher.
- Broker.Channel.Deliver: does not fix the order in which subscribers are visited, because `std::set` of pointers iterates in address order. Only exactly-once delivery to each member is stated.
- ReplayCache.Append: keys are unbounded integers. The `long` overflow of `cache_.size() + 1` after 2^63 - 1 messages is not modelled.
- The tutorial publisher's `handle_accept` and `new_`, and its `started()`, `sock()` and `topic()` accessors, are left out. They are acceptor wiring or plain field reads.
- The tutorial subscriber's `start(ep)` (an `async_connect`), `on_write` and `do_read` only issue socket operations. They change no modelled state and are left out. Its `on_subscribed` only logs.
- Waspub.TalkToClient.DoWrite: requires that a message from a started session fit the 1024-byte buffer. Every message the session writes does; the source copies past the buffer's end otherwise.
- Sub.TalkToSvr.DoWrite: requires that a message from a started connection fit the 1024-byte buffer, as above.
- Sub.TalkToSvr.OnConnect: requires that the subscription line for the connection's topic fit the 1024-byte buffer, since it is handed to `do_write`.
- Waspub.TalkToClient.OnSubscribe: sends the reply before it records the topic, the reverse of the source's order. The write neither reads nor changes the topic, so the outcome is the same.
