/** `prepare_dataset` of the training script: turning recorded samples into
    the training tensors `X` (samples x frames x features) and `y` (label
    indices), together with the label vocabulary. Feature values are opaque;
    `zero` stands for the `0.0` used to widen single-hand frames. */
module Dataset {
  import opened Wrappers
  import opened Text
  import opened Frames
  import opened Arith

  /** One recorded sample: its gesture label (the JSON `label` key) and its frames of features. */
  datatype Sample<V> = Sample(gesture: string, landmarks: seq<seq<V>>)

  function LabelSet<V>(samples: seq<Sample<V>>): set<string> {
    set k | 0 <= k < |samples| :: samples[k].gesture
  }

  /** `sorted(set(s["label"] for s in samples))`: every label once, in
      code-point order. */
  function Vocabulary<V>(samples: seq<Sample<V>>): (labels: seq<string>)
    ensures StrictlySorted(labels)
    ensures Elements(labels) == LabelSet(samples)
  {
    if samples == [] then []
    else
      var rest := Vocabulary(samples[1..]);
      assert LabelSet(samples) == LabelSet(samples[1..]) + {samples[0].gesture} by {
        assert samples == [samples[0]] + samples[1..];
      }
      InsertSorted(rest, samples[0].gesture)
  }

  /** The vocabulary is exactly THE sorted list of the distinct labels: any
      strictly sorted list holding the same labels is equal to it. */
  lemma VocabularyIsSortedLabelSet<V>(samples: seq<Sample<V>>, labels: seq<string>)
    requires StrictlySorted(labels) && Elements(labels) == LabelSet(samples)
    ensures labels == Vocabulary(samples)
  {
    StrictlySortedUnique(labels, Vocabulary(samples));
  }

  /** `{label: i for i, label in enumerate(labels)}`. */
  function LabelIndex(labels: seq<string>): (index: map<string, nat>)
    requires StrictlySorted(labels)
    ensures index.Keys == Elements(labels)
    ensures forall l :: l in index ==> index[l] < |labels| && labels[index[l]] == l
  {
    assert forall i, j :: 0 <= i < |labels| && 0 <= j < |labels| && labels[i] == labels[j] ==> i == j by {
      forall i, j | 0 <= i < |labels| && 0 <= j < |labels| && labels[i] == labels[j] ensures i == j {
        if i < j { StrLessIrreflexive(labels[i]); }
        if j < i { StrLessIrreflexive(labels[j]); }
      }
    }
    map i | 0 <= i < |labels| :: labels[i] := i
  }

  /** Each frame followed by 63 zeros: a single-hand frame becomes a two-hand
      frame whose second hand was not seen. */
  function Widen<V>(frames: seq<seq<V>>, zero: V): (wide: seq<seq<V>>)
    ensures |wide| == |frames|
    ensures forall k :: 0 <= k < |wide| ==>
              |wide[k]| == |frames[k]| + FeaturesPerHand && wide[k][..|frames[k]|] == frames[k] &&
              forall c :: |frames[k]| <= c < |wide[k]| ==> wide[k][c] == zero
  {
    seq(|frames|, k requires 0 <= k < |frames| => frames[k] + seq(FeaturesPerHand, _ => zero))
  }

  /** The width step, decided by the first frame alone: 63-wide samples are
      widened, 126-wide samples are kept, any other width is skipped (`None`). */
  function UpgradeWidth<V>(frames: seq<seq<V>>, zero: V): (r: Option<seq<seq<V>>>)
    requires frames != []
    ensures r.Some? <==> |frames[0]| == FeaturesPerHand || |frames[0]| == FeaturesPerFrame
    ensures r.Some? ==> |r.value| == |frames|
    ensures r.Some? && (forall k :: 0 <= k < |frames| ==> |frames[k]| == |frames[0]|) ==>
              forall k :: 0 <= k < |frames| ==> |r.value[k]| == FeaturesPerFrame
    ensures |frames[0]| == FeaturesPerFrame ==> r == Some(frames)
    ensures |frames[0]| == FeaturesPerHand ==>
              r.Some? &&
              forall k :: 0 <= k < |frames| ==>
                |r.value[k]| == |frames[k]| + FeaturesPerHand && r.value[k][..|frames[k]|] == frames[k] &&
                forall c :: |frames[k]| <= c < |r.value[k]| ==> r.value[k][c] == zero
  {
    if |frames[0]| == FeaturesPerHand then Some(Widen(frames, zero))
    else if |frames[0]| == FeaturesPerFrame then Some(frames)
    else None
  }

  /** `np.linspace(0, n - 1, SEQUENCE_LENGTH, dtype=int)[i]`, taken as the exact
      `floor(i * (n - 1) / (SEQUENCE_LENGTH - 1))`. */
  function LinspaceIndex(i: nat, n: nat): (r: nat)
    requires i < SequenceLength && n >= 1
    ensures r < n
  {
    MulMonotone(i, SequenceLength - 1, n - 1);
    DivMonotone(i * (n - 1), (SequenceLength - 1) * (n - 1), SequenceLength - 1);
    DivUnique((SequenceLength - 1) * (n - 1), SequenceLength - 1, n - 1, 0);
    i * (n - 1) / (SequenceLength - 1)
  }

  /** The sampled source indices of a long clip start at 0, end at `n - 1` and
      strictly increase, so no frame is taken twice and the order is kept. */
  lemma DownsampleIndices(n: nat)
    requires n > SequenceLength
    ensures LinspaceIndex(0, n) == 0
    ensures LinspaceIndex(SequenceLength - 1, n) == n - 1
    ensures forall i, j :: 0 <= i < j < SequenceLength ==> LinspaceIndex(i, n) < LinspaceIndex(j, n)
  {
    var d := SequenceLength - 1;
    DivUnique(d * (n - 1), d, n - 1, 0);
    forall i, j | 0 <= i < j < SequenceLength
      ensures LinspaceIndex(i, n) < LinspaceIndex(j, n)
    {
      var a, b := i * (n - 1), j * (n - 1);
      MulAtLeast(j - i, n - 1);
      assert b - a == (j - i) * (n - 1);
      DivMonotone(a + d, b, d);
      DivStep(a + d, d);
    }
  }

  /** `[frames[i] for i in indices]` with the linspace indices. */
  function Downsample<T>(frames: seq<T>): (r: seq<T>)
    requires |frames| > SequenceLength
    ensures |r| == SequenceLength
    ensures forall k :: 0 <= k < SequenceLength ==> r[k] == frames[LinspaceIndex(k, |frames|)]
    ensures r[0] == frames[0] && r[SequenceLength - 1] == frames[|frames| - 1]
  {
    DownsampleIndices(|frames|);
    seq(SequenceLength, k requires 0 <= k < SequenceLength => frames[LinspaceIndex(k, |frames|)])
  }

  /** The length step: pad a short sample with its last frame, downsample a
      long one, then keep the first `SEQUENCE_LENGTH` frames. */
  function FitLength<T>(frames: seq<T>): (r: seq<T>)
    requires frames != []
    ensures |r| == SequenceLength
    ensures forall k :: 0 <= k < |r| ==> r[k] in frames
  {
    var fitted := if |frames| < SequenceLength then PadWithLast(frames, SequenceLength)
                  else if |frames| > SequenceLength then Downsample(frames)
                  else frames;
    assert forall k :: 0 <= k < |fitted| ==> fitted[k] in frames by {
      forall k | 0 <= k < |fitted| ensures fitted[k] in frames {
        if |frames| < SequenceLength && k < |frames| {
          assert fitted[k] == fitted[..|frames|][k];
        }
      }
    }
    fitted[..SequenceLength]
  }

  lemma FitLengthCases<T>(frames: seq<T>)
    requires frames != []
    ensures |frames| < SequenceLength ==> FitLength(frames) == PadWithLast(frames, SequenceLength)[..SequenceLength]
    ensures |frames| == SequenceLength ==> FitLength(frames) == frames[..SequenceLength]
    ensures |frames| > SequenceLength ==> FitLength(frames) == Downsample(frames)[..SequenceLength]
  {
  }

  /** What one sample contributes: `None` when it is skipped (no frames, or a
      first frame neither 63 nor 126 wide), otherwise exactly `SEQUENCE_LENGTH`
      frames. */
  function NormaliseSample<V>(landmarks: seq<seq<V>>, zero: V): (r: Option<seq<seq<V>>>)
    ensures r.Some? <==> landmarks != [] &&
                         (|landmarks[0]| == FeaturesPerHand || |landmarks[0]| == FeaturesPerFrame)
    ensures r.Some? ==> |r.value| == SequenceLength
  {
    if landmarks == [] then None
    else match UpgradeWidth(landmarks, zero)
      case None => None
      case Some(upgraded) => Some(FitLength(upgraded))
  }

  /** Where the frames of a kept sample come from: a short sample keeps its
      (widened) frames as a prefix and repeats its last frame; a sample of
      exactly `SEQUENCE_LENGTH` frames is kept as it is; a long sample takes
      the frames at the linspace indices. */
  lemma NormalisedFrames<V>(landmarks: seq<seq<V>>, zero: V)
    requires NormaliseSample(landmarks, zero).Some?
    ensures var f, w := NormaliseSample(landmarks, zero).value, UpgradeWidth(landmarks, zero).value;
            && (|w| < SequenceLength ==>
                  f[..|w|] == w && forall k :: |w| <= k < SequenceLength ==> f[k] == w[|w| - 1])
            && (|w| == SequenceLength ==> f == w)
            && (|w| > SequenceLength ==> forall k :: 0 <= k < SequenceLength ==> f[k] == w[LinspaceIndex(k, |w|)])
  {
    var w := UpgradeWidth(landmarks, zero).value;
    if |w| < SequenceLength {
      var p := PadWithLast(w, SequenceLength);
      assert p[..SequenceLength] == p;
    } else if |w| == SequenceLength {
      assert w[..SequenceLength] == w;
    } else {
      var d := Downsample(w);
      assert d[..SequenceLength] == d;
    }
  }

  /** A kept sample whose frames all have the width of its first frame yields
      frames that are all 126 wide. */
  lemma NormalisedWidth<V>(landmarks: seq<seq<V>>, zero: V)
    requires NormaliseSample(landmarks, zero).Some?
    requires forall k :: 0 <= k < |landmarks| ==> |landmarks[k]| == |landmarks[0]|
    ensures forall k :: 0 <= k < SequenceLength ==> |NormaliseSample(landmarks, zero).value[k]| == FeaturesPerFrame
  {
    var w := UpgradeWidth(landmarks, zero).value;
    var f := NormaliseSample(landmarks, zero).value;
    forall k | 0 <= k < SequenceLength ensures |f[k]| == FeaturesPerFrame {
      assert f[k] in w;
    }
  }

  /** The kept samples in order, each with its frames and its label. */
  function Prepared<V>(samples: seq<Sample<V>>, zero: V): seq<(seq<seq<V>>, string)> {
    if samples == [] then []
    else
      var last := samples[|samples| - 1];
      Prepared(samples[..|samples| - 1], zero) +
        match NormaliseSample(last.landmarks, zero)
        case None => []
        case Some(frames) => [(frames, last.gesture)]
  }

  lemma PreparedStep<V>(samples: seq<Sample<V>>, k: nat, zero: V)
    requires k < |samples|
    ensures Prepared(samples[..k + 1], zero) ==
            Prepared(samples[..k], zero) +
              match NormaliseSample(samples[k].landmarks, zero)
              case None => []
              case Some(frames) => [(frames, samples[k].gesture)]
  {
    assert samples[..k + 1][..k] == samples[..k];
  }

  /** Every entry has exactly `SEQUENCE_LENGTH` frames. */
  lemma {:induction false} PreparedLength<V>(samples: seq<Sample<V>>, zero: V)
    ensures forall j :: 0 <= j < |Prepared(samples, zero)| ==> |Prepared(samples, zero)[j].0| == SequenceLength
  {
    if samples != [] {
      PreparedLength(samples[..|samples| - 1], zero);
    }
  }

  /** A sample with these frames is kept: it has frames, and its first frame is
      63 or 126 wide. */
  predicate Keeps<V>(landmarks: seq<seq<V>>) {
    landmarks != [] && (|landmarks[0]| == FeaturesPerHand || |landmarks[0]| == FeaturesPerFrame)
  }

  /** The positions of the samples that are kept, in increasing order. */
  function KeptIndices<V>(samples: seq<Sample<V>>): (ks: seq<nat>)
    ensures |ks| <= |samples|
    ensures forall i :: 0 <= i < |ks| ==> ks[i] < |samples|
    ensures forall i, j :: 0 <= i < j < |ks| ==> ks[i] < ks[j]
    ensures forall k :: 0 <= k < |samples| ==> (k in ks <==> Keeps(samples[k].landmarks))
  {
    if samples == [] then []
    else
      var init := samples[..|samples| - 1];
      assert forall k :: 0 <= k < |init| ==> samples[k] == init[k];
      KeptIndices(init) + if Keeps(samples[|samples| - 1].landmarks) then [|samples| - 1] else []
  }

  /** Entry `j` of the prepared dataset is the `j`-th kept sample, normalised,
      with its own label: one entry per kept sample, none for a skipped one,
      in sample order. */
  lemma {:induction false} PreparedFromSamples<V>(samples: seq<Sample<V>>, zero: V)
    ensures |Prepared(samples, zero)| == |KeptIndices(samples)|
    ensures forall j :: 0 <= j < |Prepared(samples, zero)| ==>
              var k := KeptIndices(samples)[j];
              Prepared(samples, zero)[j] == (NormaliseSample(samples[k].landmarks, zero).value, samples[k].gesture)
  {
    if samples != [] {
      var init := samples[..|samples| - 1];
      var last := samples[|samples| - 1];
      PreparedFromSamples(init, zero);
      var p, q := Prepared(samples, zero), Prepared(init, zero);
      var ks, kq := KeptIndices(samples), KeptIndices(init);
      var normalised := NormaliseSample(last.landmarks, zero);
      if normalised.Some? {
        assert p == q + [(normalised.value, last.gesture)] && ks == kq + [|samples| - 1];
      } else {
        assert p == q && ks == kq;
      }
      forall j | 0 <= j < |p|
        ensures p[j] == (NormaliseSample(samples[ks[j]].landmarks, zero).value, samples[ks[j]].gesture)
      {
        if j < |q| {
          var k := kq[j];
          assert q[j] == (NormaliseSample(init[k].landmarks, zero).value, init[k].gesture);
          assert ks[j] == k && p[j] == q[j] && samples[k] == init[k];
        }
      }
    }
  }

  /** When no sample is skipped, every position is kept. */
  lemma {:induction false} KeptIndicesAll<V>(samples: seq<Sample<V>>, zero: V)
    requires forall k :: 0 <= k < |samples| ==> NormaliseSample(samples[k].landmarks, zero).Some?
    ensures |KeptIndices(samples)| == |samples|
    ensures forall k :: 0 <= k < |samples| ==> KeptIndices(samples)[k] == k
  {
    if samples != [] {
      var init := samples[..|samples| - 1];
      assert forall k :: 0 <= k < |init| ==> init[k] == samples[k];
      KeptIndicesAll(init, zero);
      assert KeptIndices(samples) == KeptIndices(init) + [|samples| - 1];
    }
  }

  /** When no sample is skipped, entry `k` is sample `k`, normalised: nothing is
      reordered or lost. */
  lemma PreparedAllKept<V>(samples: seq<Sample<V>>, zero: V)
    requires forall k :: 0 <= k < |samples| ==> NormaliseSample(samples[k].landmarks, zero).Some?
    ensures |Prepared(samples, zero)| == |samples|
    ensures forall k :: 0 <= k < |samples| ==>
              Prepared(samples, zero)[k] == (NormaliseSample(samples[k].landmarks, zero).value, samples[k].gesture)
  {
    PreparedFromSamples(samples, zero);
    KeptIndicesAll(samples, zero);
  }

  /** `X` and `y` list the frames and the label indices of `kept`, in order. */
  ghost predicate Tracks<V>(X: seq<seq<seq<V>>>, y: seq<nat>, labels: seq<string>, kept: seq<(seq<seq<V>>, string)>) {
    && |X| == |y| == |kept|
    && (forall j :: 0 <= j < |X| ==> X[j] == kept[j].0)
    && (forall j :: 0 <= j < |y| ==> y[j] < |labels| && labels[y[j]] == kept[j].1)
  }

  lemma TracksAppend<V>(X: seq<seq<seq<V>>>, y: seq<nat>, labels: seq<string>, kept: seq<(seq<seq<V>>, string)>,
                        frames: seq<seq<V>>, index: nat)
    requires Tracks(X, y, labels, kept) && index < |labels|
    ensures Tracks(X + [frames], y + [index], labels, kept + [(frames, labels[index])])
  {
  }

  /** `prepare_dataset(samples)`: the loop over samples that skips, widens,
      pads or downsamples each one and appends to `X` and `y` in lock-step. */
  method PrepareDataset<V>(samples: seq<Sample<V>>, zero: V)
    returns (X: seq<seq<seq<V>>>, y: seq<nat>, labels: seq<string>)
    ensures labels == Vocabulary(samples)
    ensures |X| == |y| == |Prepared(samples, zero)|
    ensures forall j :: 0 <= j < |X| ==> |X[j]| == SequenceLength && X[j] == Prepared(samples, zero)[j].0
    ensures forall j :: 0 <= j < |y| ==> y[j] < |labels| && labels[y[j]] == Prepared(samples, zero)[j].1
  {
    labels := Vocabulary(samples);
    var labelToIdx := LabelIndex(labels);
    X, y := [], [];
    ghost var kept: seq<(seq<seq<V>>, string)> := [];
    for k := 0 to |samples|
      invariant kept == Prepared(samples[..k], zero)
      invariant Tracks(X, y, labels, kept)
    {
      var sample := samples[k];
      PreparedStep(samples, k, zero);
      ghost var normalised := NormaliseSample(sample.landmarks, zero);
      var landmarks := sample.landmarks;
      var nFrames := |landmarks|;
      if nFrames == 0 {
        continue;
      }
      var frameWidth := |landmarks[0]|;
      if frameWidth == FeaturesPerHand {
        landmarks := Widen(landmarks, zero);
        frameWidth := FeaturesPerFrame;
      } else if frameWidth != FeaturesPerFrame {
        continue;
      }
      assert landmarks == UpgradeWidth(sample.landmarks, zero).value;
      FitLengthCases(landmarks);
      if nFrames < SequenceLength {
        landmarks := PadWithLast(landmarks, SequenceLength);
      } else if nFrames > SequenceLength {
        landmarks := Downsample(landmarks);
      }
      assert |landmarks| == SequenceLength;
      var fitted := landmarks[..SequenceLength];
      assert fitted == normalised.value;
      assert sample.gesture in LabelSet(samples);
      var index := labelToIdx[sample.gesture];
      TracksAppend(X, y, labels, kept, fitted, index);
      X := X + [fitted];
      y := y + [index];
      kept := kept + [(normalised.value, sample.gesture)];
    }
    assert samples[..|samples|] == samples;
    PreparedLength(samples, zero);
  }
}
