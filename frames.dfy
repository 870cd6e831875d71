/** Shapes shared by the training tools: how many hands, landmarks and
    coordinates make up one frame, how many frames make up one sequence,
    and how a short clip is stretched by repeating its last frame. */
module Frames {

  const MaxHands: nat := 2
  const LandmarksPerHand: nat := 21
  const CoordsPerLandmark: nat := 3
  const FeaturesPerHand: nat := LandmarksPerHand * CoordsPerLandmark
  const FeaturesPerFrame: nat := MaxHands * FeaturesPerHand
  /** The classifier's window length (`SEQUENCE_LENGTH`). */
  const SequenceLength: nat := 30

  /** `s` followed by copies of its last element until it is `n` long;
      `s` itself when it is already at least `n` long. */
  function PadWithLast<T>(s: seq<T>, n: nat): (r: seq<T>)
    requires s != []
    ensures |r| == if |s| < n then n else |s|
    ensures r[..|s|] == s
    ensures forall k :: |s| <= k < |r| ==> r[k] == s[|s| - 1]
  {
    if |s| < n then s + seq(n - |s|, _ => s[|s| - 1]) else s
  }

  /** Padding one element further is appending one more copy of the last element. */
  lemma PadWithLastStep<T>(s: seq<T>, m: nat)
    requires s != [] && |s| <= m
    ensures PadWithLast(s, m + 1) == PadWithLast(s, m) + [PadWithLast(s, m)[m - 1]]
  {
    var p, q := PadWithLast(s, m), PadWithLast(s, m + 1);
    assert |p| == m && |q| == m + 1;
    forall k | 0 <= k <= m ensures q[k] == (p + [p[m - 1]])[k] {
      if k < |s| {
        assert q[k] == q[..|s|][k] && p[k] == p[..|s|][k];
      }
    }
  }
}
