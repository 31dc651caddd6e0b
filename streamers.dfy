/** Finite audio streamers as the queue sees them.
  *
  * A streamer is asked to write up to `k` frames into the front of a
  * buffer window and answers with how many it wrote and whether it can
  * still produce frames.  Amplitudes are abstracted to integers: the
  * queue only copies frames and writes zeros, it never computes with them.
  */
module Streamers {

  /** One stereo frame: an amplitude for each of the two channels. */
  datatype Frame = Frame(left: int, right: int)

  /** The frame with both channels at zero. */
  const Silence: Frame := Frame(0, 0)

  /** When a finite streamer reports that it is drained (`ok == false`).
    * AfterLastFrame: on the first call made once nothing is left, writing
    *   no frames.
    * WithLastFrame: on the very call that hands out the last frame, with
    *   that call's frame count still positive. */
  datatype DrainSignal = AfterLastFrame | WithLastFrame

  /** A finite streamer: the frames it has yet to produce, in order. */
  datatype Source = Source(remaining: seq<Frame>, signal: DrainSignal)
  {
    /** One call of the streamer's Stream on a window of `k` frames. */
    function Stream(k: nat): (c: Chunk)
      // what was written, followed by what is left, is what there was
      ensures c.frames + c.next.remaining == remaining
      ensures c.next.signal == signal
      // never more than the window, and the window is filled while frames last
      ensures |c.frames| <= k
      ensures |c.frames| == k || c.next.remaining == []
      // drained is reported only once nothing is left
      ensures !c.ok ==> c.next.remaining == []
      ensures signal == AfterLastFrame ==> (c.ok <==> remaining != [])
      ensures signal == WithLastFrame ==> (c.ok <==> c.next.remaining != [])
      // a streamer that is not drained makes progress on a non-empty window
      ensures k > 0 && c.ok ==> |c.frames| > 0
    {
      var n := if k < |remaining| then k else |remaining|;
      var ok := match signal
        case AfterLastFrame => remaining != []
        case WithLastFrame => n < |remaining|;
      Chunk(Source(remaining[n..], signal), remaining[..n], ok)
    }
  }

  /** The answer of one Stream call: the streamer's new state, the frames
    * it wrote (their count is the call's `n`) and its `ok` flag. */
  datatype Chunk = Chunk(next: Source, frames: seq<Frame>, ok: bool)

  /** `buf` after `frames` have been written at offset `at`. */
  function Written(buf: seq<Frame>, at: nat, frames: seq<Frame>): (r: seq<Frame>)
    requires at + |frames| <= |buf|
    ensures |r| == |buf|
    ensures forall i :: 0 <= i < |frames| ==> r[at + i] == frames[i]
    ensures forall i :: 0 <= i < |buf| && !(at <= i < at + |frames|) ==> r[i] == buf[i]
  {
    buf[..at] + frames + buf[at + |frames|..]
  }

  /** The streamer writing into the window `samples[from:]` of a shared
    * buffer.  It is taken to touch only the positions it reports as
    * written; a streamer that clears more of its window is not modelled. */
  method StreamInto(s: Source, samples: array<Frame>, from: nat) returns (c: Chunk)
    requires from <= samples.Length
    modifies samples
    ensures c == s.Stream(samples.Length - from)
    ensures samples[..] == Written(old(samples[..]), from, c.frames)
  {
    c := s.Stream(samples.Length - from);
    ghost var before := samples[..];
    forall i | from <= i < from + |c.frames| {
      samples[i] := c.frames[i - from];
    }
    assert forall i :: 0 <= i < samples.Length ==> samples[..][i] == Written(before, from, c.frames)[i];
  }
}
