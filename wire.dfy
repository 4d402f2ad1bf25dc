/**
 * The broker's wire format: newline-delimited text frames. A message is put
 * on the wire, and into a session's output queue, as the message followed by
 * one newline.
 */
module Wire {

  /** A complete frame: non-empty and ending in a newline. */
  predicate IsFrame(f: string) {
    |f| > 0 && f[|f| - 1] == '\n'
  }

  /** The frame that carries message `m`: the message, then one newline ending the frame. */
  function Frame(m: string): (f: string)
    ensures IsFrame(f) && |f| == |m| + 1 && f[..|m|] == m
  {
    m + "\n"
  }

  /** Every entry of an output queue is a complete frame. */
  predicate AllFrames(q: seq<string>) {
    forall i :: 0 <= i < |q| ==> IsFrame(q[i])
  }

  /** The frames of `ms`, one per message, in the same order. */
  function Frames(ms: seq<string>): (fs: seq<string>)
    ensures |fs| == |ms|
    ensures forall i :: 0 <= i < |ms| ==> fs[i] == Frame(ms[i]) && IsFrame(fs[i])
  {
    if ms == [] then [] else [Frame(ms[0])] + Frames(ms[1..])
  }

  /** Framing one more message extends the framed sequence by that message's frame. */
  lemma {:induction false} FramesAppend(ms: seq<string>, m: string)
    ensures Frames(ms + [m]) == Frames(ms) + [Frame(m)]
  {
    if ms != [] {
      assert (ms + [m])[1..] == ms[1..] + [m];
      FramesAppend(ms[1..], m);
    }
  }
}
