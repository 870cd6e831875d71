/** `build_sequences` of the video extractor: cutting one clip's frame list
    into fixed-length training windows. */
module Windowing {
  import opened Frames
  import opened Arith

  /** The caller's frame list, a Python list that `BuildSequences` may extend in place. */
  class FrameList<T> {
    var items: seq<T>

    constructor (items: seq<T>)
      ensures this.items == items
    {
      this.items := items;
    }
  }

  /** The window step, `max(1, truncated)`, where `truncated` is the already
      truncated `int(sequence_length * (1.0 - overlap))`. */
  function WindowStep(truncated: int): (step: nat)
    ensures step >= 1
    ensures truncated >= 1 ==> step == truncated
    ensures truncated < 1 ==> step == 1
  {
    if truncated < 1 then 1 else truncated
  }

  /** The windows `frames[start..start+len]`, `frames[start+step..start+step+len]`, ...
      for as long as a window fits, as `range(start, n - len + 1, step)` enumerates them. */
  function WindowsFrom<T>(frames: seq<T>, len: nat, step: nat, start: nat): seq<seq<T>>
    requires step >= 1
    decreases |frames| + 1 - start
  {
    if start + len > |frames| then []
    else [frames[start..start + len]] + WindowsFrom(frames, len, step, start + step)
  }

  /** What `build_sequences` returns for `frames`. */
  function Sequences<T>(frames: seq<T>, len: nat, step: nat): seq<seq<T>>
    requires step >= 1
  {
    if frames == [] then []
    else if |frames| < len then [PadWithLast(frames, len)]
    else WindowsFrom(frames, len, step, 0)
  }

  /** The number of windows from `start` on: `(n - len - start) / step + 1`. */
  lemma {:induction false} WindowsFromCount<T>(frames: seq<T>, len: nat, step: nat, start: nat)
    requires step >= 1 && start + len <= |frames|
    ensures |WindowsFrom(frames, len, step, start)| == (|frames| - len - start) / step + 1
    decreases |frames| - start
  {
    DivStep(|frames| - len - start, step);
    if start + step + len <= |frames| {
      WindowsFromCount(frames, len, step, start + step);
    }
  }

  /** Window `k` from `start` on is the slice that starts at `start + k * step`. */
  lemma {:induction false} WindowsFromAt<T>(frames: seq<T>, len: nat, step: nat, start: nat, k: nat)
    requires step >= 1 && k < |WindowsFrom(frames, len, step, start)|
    ensures start + k * step + len <= |frames|
    ensures WindowsFrom(frames, len, step, start)[k] == frames[start + k * step..start + k * step + len]
    decreases k
  {
    if k > 0 {
      WindowsFromAt(frames, len, step, start + step, k - 1);
      assert start + step + (k - 1) * step == start + k * step;
    }
  }

  /** The windows from `start` on: there are `(n - len - start) / step + 1` of them
      and window `k` is the slice that starts at `start + k * step`. */
  lemma WindowsFromShape<T>(frames: seq<T>, len: nat, step: nat, start: nat)
    requires step >= 1 && start + len <= |frames|
    ensures |WindowsFrom(frames, len, step, start)| == (|frames| - len - start) / step + 1
    ensures forall k :: 0 <= k < |WindowsFrom(frames, len, step, start)| ==>
              start + k * step + len <= |frames| &&
              WindowsFrom(frames, len, step, start)[k] == frames[start + k * step..start + k * step + len]
  {
    WindowsFromCount(frames, len, step, start);
    forall k | 0 <= k < |WindowsFrom(frames, len, step, start)|
      ensures start + k * step + len <= |frames|
      ensures WindowsFrom(frames, len, step, start)[k] == frames[start + k * step..start + k * step + len]
    {
      WindowsFromAt(frames, len, step, start, k);
    }
  }

  /** The three outcomes of `build_sequences`: nothing for an empty clip; one window
      of exactly `len` frames for a short clip, its frames followed by copies of
      the last one; otherwise `(n - len) / step + 1` windows, window `k` being the
      contiguous slice `frames[k*step .. k*step+len)`, the first one at 0 and none
      running past the end. */
  lemma SequencesShape<T>(frames: seq<T>, len: nat, step: nat)
    requires step >= 1
    ensures frames == [] ==> Sequences(frames, len, step) == []
    ensures 0 < |frames| < len ==>
              |Sequences(frames, len, step)| == 1 &&
              |Sequences(frames, len, step)[0]| == len &&
              Sequences(frames, len, step)[0][..|frames|] == frames &&
              forall k :: |frames| <= k < len ==> Sequences(frames, len, step)[0][k] == frames[|frames| - 1]
    ensures len <= |frames| && frames != [] ==>
              |Sequences(frames, len, step)| == (|frames| - len) / step + 1 &&
              Sequences(frames, len, step)[0] == frames[..len] &&
              forall k :: 0 <= k < |Sequences(frames, len, step)| ==>
                k * step + len <= |frames| &&
                |Sequences(frames, len, step)[k]| == len &&
                Sequences(frames, len, step)[k] == frames[k * step..k * step + len]
  {
    if len <= |frames| && frames != [] {
      WindowsFromShape(frames, len, step, 0);
      var ws := Sequences(frames, len, step);
      assert ws[0] == frames[0 * step..0 * step + len];
    }
  }

  /** `build_sequences(frames, sequence_length, overlap)`: a clip shorter than the
      window is first extended in place with copies of its last frame. */
  method BuildSequences<T>(frames: FrameList<T>, sequenceLength: nat, truncatedStep: int)
    returns (sequences: seq<seq<T>>)
    modifies frames
    ensures sequences == Sequences(old(frames.items), sequenceLength, WindowStep(truncatedStep))
    ensures frames.items == if 0 < |old(frames.items)| < sequenceLength
                            then PadWithLast(old(frames.items), sequenceLength)
                            else old(frames.items)
  {
    if frames.items == [] {
      return [];
    }
    ghost var original := frames.items;
    if |frames.items| < sequenceLength {
      while |frames.items| < sequenceLength
        invariant |original| <= |frames.items| <= sequenceLength
        invariant frames.items == PadWithLast(original, |frames.items|)
        decreases sequenceLength - |frames.items|
      {
        PadWithLastStep(original, |frames.items|);
        frames.items := frames.items + [frames.items[|frames.items| - 1]];
      }
      assert frames.items[..sequenceLength] == frames.items;
      return [frames.items[..sequenceLength]];
    }
    var step := WindowStep(truncatedStep);
    sequences := [];
    var start := 0;
    while start + sequenceLength <= |frames.items|
      invariant sequences + WindowsFrom(original, sequenceLength, step, start)
                == WindowsFrom(original, sequenceLength, step, 0)
      decreases |frames.items| + 1 - start
    {
      sequences := sequences + [frames.items[start..start + sequenceLength]];
      start := start + step;
    }
  }
}
