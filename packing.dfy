/** The packing loop of `extract_frames`: the hands detected in one video frame
    become one fixed-width feature vector. Coordinate values are opaque; `zero`
    stands for the `0.0` that fills every slot nothing is written to. */
module FramePacking {
  import opened Frames
  import opened Arith

  datatype Landmark<V> = Landmark(x: V, y: V, z: V)

  /** Coordinate `c` of a landmark: 0 is x, 1 is y, 2 is z. */
  function Coord<V>(lm: Landmark<V>, c: nat): V
    requires c < CoordsPerLandmark
  {
    if c == 0 then lm.x else if c == 1 then lm.y else lm.z
  }

  /** What slot `i` of the packed vector holds: the slot is split into a hand,
      a landmark of that hand and a coordinate; slots of a hand or landmark that
      was not detected hold `zero`. */
  function Slot<V>(hands: seq<seq<Landmark<V>>>, zero: V, i: nat): V
    requires i < FeaturesPerFrame
  {
    var h := i / FeaturesPerHand;
    var l := (i % FeaturesPerHand) / CoordsPerLandmark;
    if h < |hands| && l < |hands[h]| then Coord(hands[h][l], i % CoordsPerLandmark) else zero
  }

  function Packed<V>(hands: seq<seq<Landmark<V>>>, zero: V): seq<V> {
    seq(FeaturesPerFrame, i requires 0 <= i < FeaturesPerFrame => Slot(hands, zero, i))
  }

  /** The tracker's contract: no hand that is packed has more than 21 landmarks. */
  ghost predicate TrackerHands<V>(hands: seq<seq<Landmark<V>>>) {
    forall h :: 0 <= h < |hands| && h < MaxHands ==> |hands[h]| <= LandmarksPerHand
  }

  /** What slot `h*63 + l*3 + c` holds. */
  lemma SlotOf<V>(hands: seq<seq<Landmark<V>>>, zero: V, h: nat, l: nat, c: nat)
    requires h < MaxHands && l < LandmarksPerHand && c < CoordsPerLandmark
    ensures h * FeaturesPerHand + l * CoordsPerLandmark + c < FeaturesPerFrame
    ensures Slot(hands, zero, h * FeaturesPerHand + l * CoordsPerLandmark + c) ==
            if h < |hands| && l < |hands[h]| then Coord(hands[h][l], c) else zero
  {
    var i := h * FeaturesPerHand + l * CoordsPerLandmark + c;
    DivUnique(i, FeaturesPerHand, h, l * CoordsPerLandmark + c);
    DivUnique(l * CoordsPerLandmark + c, CoordsPerLandmark, l, c);
    assert i % FeaturesPerHand == l * CoordsPerLandmark + c;
    assert i % CoordsPerLandmark == c;
  }

  /** The slots after the last landmark of a detected hand, up to the end of
      that hand's block, hold `zero`. */
  lemma MissingLandmarks<V>(hands: seq<seq<Landmark<V>>>, zero: V, h: nat)
    requires h < MaxHands && h < |hands| && |hands[h]| <= LandmarksPerHand
    ensures forall i :: h * FeaturesPerHand + |hands[h]| * CoordsPerLandmark <= i < (h + 1) * FeaturesPerHand ==>
              Slot(hands, zero, i) == zero
  {
    forall i | h * FeaturesPerHand + |hands[h]| * CoordsPerLandmark <= i < (h + 1) * FeaturesPerHand
      ensures Slot(hands, zero, i) == zero
    {
      var r := i - h * FeaturesPerHand;
      SlotOf(hands, zero, h, r / CoordsPerLandmark, r % CoordsPerLandmark);
    }
  }

  /** The blocks of hands from `h` on hold `zero` once no hand from `h` on is packed. */
  lemma MissingHands<V>(hands: seq<seq<Landmark<V>>>, zero: V, h: nat)
    requires h <= MaxHands && (|hands| <= h || h == MaxHands)
    ensures forall i :: h * FeaturesPerHand <= i < FeaturesPerFrame ==> Slot(hands, zero, i) == zero
  {
    forall i | h * FeaturesPerHand <= i < FeaturesPerFrame
      ensures Slot(hands, zero, i) == zero
    {
      var r := i - h * FeaturesPerHand;
      var g := h + r / FeaturesPerHand;
      var q := r % FeaturesPerHand;
      assert i == g * FeaturesPerHand + (q / CoordsPerLandmark) * CoordsPerLandmark + q % CoordsPerLandmark;
      SlotOf(hands, zero, g, q / CoordsPerLandmark, q % CoordsPerLandmark);
    }
  }

  /** The vector always has 126 entries, and coordinate `c` of landmark `l` of
      hand `h` (for the first two hands) sits at index `h*63 + l*3 + c`. */
  lemma PackedLayout<V>(hands: seq<seq<Landmark<V>>>, zero: V, h: nat, l: nat, c: nat)
    requires h < MaxHands && h < |hands| && l < |hands[h]| && l < LandmarksPerHand && c < CoordsPerLandmark
    ensures |Packed(hands, zero)| == FeaturesPerFrame
    ensures h * FeaturesPerHand + l * CoordsPerLandmark + c < FeaturesPerFrame
    ensures Packed(hands, zero)[h * FeaturesPerHand + l * CoordsPerLandmark + c] == Coord(hands[h][l], c)
  {
    SlotOf(hands, zero, h, l, c);
  }

  /** Every slot of a hand that was not detected stays `zero`; in particular a
      frame without hands is the all-zero vector. */
  lemma PackedUndetectedHand<V>(hands: seq<seq<Landmark<V>>>, zero: V, h: nat)
    requires |hands| <= h < MaxHands
    ensures forall i :: h * FeaturesPerHand <= i < (h + 1) * FeaturesPerHand ==> Packed(hands, zero)[i] == zero
  {
    forall i | h * FeaturesPerHand <= i < (h + 1) * FeaturesPerHand
      ensures Packed(hands, zero)[i] == zero
    {
      assert i / FeaturesPerHand == h;
    }
  }

  lemma PackedNoHands<V>(zero: V)
    ensures Packed([], zero) == seq(FeaturesPerFrame, _ => zero)
  {
  }

  /** Detections beyond the second hand are ignored. */
  lemma PackedIgnoresExtraHands<V>(hands: seq<seq<Landmark<V>>>, zero: V)
    requires |hands| > MaxHands
    ensures Packed(hands, zero) == Packed(hands[..MaxHands], zero)
  {
  }

  /** The loop of `extract_frames` for one frame: start from 126 zeros and write
      the x, y, z of every landmark of the first two detected hands at
      `hand*63 + landmark*3 + coordinate`. */
  method PackFrame<V>(hands: seq<seq<Landmark<V>>>, zero: V) returns (vec: seq<V>)
    requires TrackerHands(hands)
    ensures vec == Packed(hands, zero)
  {
    var slots := new V[FeaturesPerFrame](_ => zero);
    var handIdx := 0;
    while handIdx < |hands|
      invariant 0 <= handIdx <= |hands| && handIdx <= MaxHands
      invariant forall i :: 0 <= i < FeaturesPerFrame ==>
                  slots[i] == if i < handIdx * FeaturesPerHand then Slot(hands, zero, i) else zero
    {
      if handIdx >= MaxHands {
        break;
      }
      var handLandmarks := hands[handIdx];
      var offset := handIdx * FeaturesPerHand;
      var lmIdx := 0;
      while lmIdx < |handLandmarks|
        invariant 0 <= lmIdx <= |handLandmarks| <= LandmarksPerHand
        invariant forall i :: 0 <= i < FeaturesPerFrame ==>
                    slots[i] == if i < offset + lmIdx * CoordsPerLandmark then Slot(hands, zero, i) else zero
      {
        var lm := handLandmarks[lmIdx];
        var base := offset + lmIdx * CoordsPerLandmark;
        SlotOf(hands, zero, handIdx, lmIdx, 0);
        SlotOf(hands, zero, handIdx, lmIdx, 1);
        SlotOf(hands, zero, handIdx, lmIdx, 2);
        slots[base] := lm.x;
        slots[base + 1] := lm.y;
        slots[base + 2] := lm.z;
        lmIdx := lmIdx + 1;
      }
      MissingLandmarks(hands, zero, handIdx);
      handIdx := handIdx + 1;
    }
    MissingHands(hands, zero, handIdx);
    vec := slots[..];
  }
}
