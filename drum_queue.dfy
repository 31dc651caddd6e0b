/** The queue of drum samples that the web application hands to the
  * speaker as one streamer, and the slice helper beside it.
  */
module DrumQueue {
  import opened Streamers
  import opened QueueSpec

  datatype Option<T> = None | Some(value: T)

  /** An ordered, mutable list of finite streamers played as one stream
    * that never fails and never ends. */
  class Queue {
    var streamers: seq<Source>

    /** The zero value `var queue Queue`: nothing queued. */
    constructor ()
      ensures streamers == []
    {
      streamers := [];
    }

    /** Appends `ss`, in their order, behind everything already queued. */
    method Add(ss: seq<Source>)
      modifies this
      ensures streamers == old(streamers) + ss
      ensures Pending(streamers) == Pending(old(streamers)) + Pending(ss)
    {
      streamers := streamers + ss;
      PendingAppend(old(streamers), ss);
    }

    /** Fills `samples` from the front streamers, popping each that
      * reports drained, and runs the silence loop once the queue is empty.
      * Always reports the whole buffer as streamed and never reports done. */
    method Stream(samples: array<Frame>) returns (n: int, ok: bool)
      modifies this, samples
      ensures n == samples.Length && ok
      ensures (streamers, samples[..]) == Pull(old(streamers), old(samples[..]))
    {
      var filled: nat := 0;
      while filled < samples.Length
        invariant filled <= samples.Length
        invariant Loop(streamers, samples[..], filled) == Pull(old(streamers), old(samples[..]))
        decreases |streamers|, samples.Length - filled
      {
        if |streamers| == 0 {
          ghost var streamed := samples[..];
          for i := 0 to samples.Length - filled
            modifies samples
            invariant forall j :: 0 <= j < samples.Length ==>
              samples[j] == if j < i then Silence else streamed[j]
          {
            samples[i] := Silence;
          }
          assert samples[..] == SilenceFill(streamed, filled);
          assert (streamers, samples[..]) == Loop([], streamed, filled);
          break;
        }
        ghost var step := Step(streamers, samples[..], filled);
        var c := StreamInto(streamers[0], samples, filled);
        if !c.ok {
          streamers := streamers[1..];
        } else {
          streamers := [c.next] + streamers[1..];
        }
        filled := filled + |c.frames|;
        assert step == LoopState(streamers, samples[..], filled);
      }
      n, ok := samples.Length, true;
    }

    /** The queue never has an error to report. */
    function Err(): (err: Option<string>)
      ensures err == None
    {
      None
    }
  }

  /** Removes the element at `index`, keeping the others in order. */
  function RemoveIndex<T>(s: seq<T>, index: nat): (r: seq<T>)
    requires index < |s|
    ensures |r| == |s| - 1
    ensures forall i :: 0 <= i < index ==> r[i] == s[i]
    ensures forall i :: index <= i < |r| ==> r[i] == s[i + 1]
    ensures multiset(r) + multiset{s[index]} == multiset(s)
  {
    assert s == s[..index] + [s[index]] + s[index + 1..];
    s[..index] + s[index + 1..]
  }
}
