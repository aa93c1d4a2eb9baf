/** Hand-gesture classification from one hand's normalized landmarks
    (script.js:133-142).  Three fingers are tested for being raised; the
    three booleans select a gesture from a fixed decision table. */
module GestureDetection {

  /** A normalized landmark reported by the hand tracker; a smaller `y` is
      higher on the screen. */
  datatype Landmark = Landmark(x: real, y: real)

  /** The classifier's outcomes.  `NoGesture` is the empty label `""`,
      which the caller treats as falsy. */
  datatype Gesture = V | Open | Fist | NoGesture

  /** How far above its knuckle a fingertip must be to count as raised. */
  const Margin: real := 0.03

  /* Landmark indices of the hand model: fingertip and middle joint. */
  const IndexTip: nat := 8
  const IndexJoint: nat := 6
  const MiddleTip: nat := 12
  const MiddleJoint: nat := 10
  const RingTip: nat := 16
  const RingJoint: nat := 14

  /** A finger is raised when its tip lies strictly more than `Margin`
      above its joint. */
  function FingerUp(tip: Landmark, joint: Landmark): (up: bool)
    ensures up <==> joint.y - tip.y > Margin
  {
    tip.y < joint.y - Margin
  }

  /** The margin is exclusive: a tip exactly `Margin` above the joint is
      not raised, and any tip higher than that is. */
  lemma FingerUpThreshold(joint: Landmark, x: real, lift: real)
    ensures !FingerUp(Landmark(x, joint.y - Margin), joint)
    ensures FingerUp(Landmark(x, joint.y - Margin - lift), joint) <==> lift > 0.0
  {
  }

  /** The decision table over (index up, middle up, ring up). */
  function Classify(indexUp: bool, middleUp: bool, ringUp: bool): (g: Gesture)
    ensures g == V <==> indexUp && middleUp && !ringUp
    ensures g == Open <==> indexUp && middleUp && ringUp
    ensures g == Fist <==> !indexUp && !middleUp && !ringUp
    ensures g == NoGesture <==> (indexUp != middleUp || (!indexUp && ringUp))
  {
    if indexUp && middleUp && !ringUp then V
    else if indexUp && middleUp && ringUp then Open
    else if !indexUp && !middleUp && !ringUp then Fist
    else NoGesture
  }

  /** One row of the gesture table: the three finger states and the
      gesture they denote. */
  datatype Row = Row(indexUp: bool, middleUp: bool, ringUp: bool, gesture: Gesture)

  /** The gesture table written out row by row, all eight combinations. */
  const Table: seq<Row> := [
    Row(true,  true,  false, V),
    Row(true,  true,  true,  Open),
    Row(false, false, false, Fist),
    Row(true,  false, false, NoGesture),
    Row(true,  false, true,  NoGesture),
    Row(false, true,  false, NoGesture),
    Row(false, true,  true,  NoGesture),
    Row(false, false, true,  NoGesture)
  ]

  /** The table lists every combination of the three booleans exactly
      once, and `Classify` agrees with every row. */
  lemma ClassifyMatchesTable()
    ensures |Table| == 8
    ensures forall i, j :: 0 <= i < j < |Table| ==>
      (Table[i].indexUp, Table[i].middleUp, Table[i].ringUp)
        != (Table[j].indexUp, Table[j].middleUp, Table[j].ringUp)
    ensures forall i :: 0 <= i < |Table| ==>
      Classify(Table[i].indexUp, Table[i].middleUp, Table[i].ringUp) == Table[i].gesture
  {
  }

  /** Classifies one hand.  Reading landmark 16 of a shorter list throws in
      the source, so the hand must carry at least seventeen landmarks. */
  function Detect(lm: seq<Landmark>): (g: Gesture)
    requires |lm| > RingTip
    ensures g == V <==>
      && lm[IndexTip].y < lm[IndexJoint].y - Margin
      && lm[MiddleTip].y < lm[MiddleJoint].y - Margin
      && lm[RingTip].y >= lm[RingJoint].y - Margin
    ensures g == Open <==>
      && lm[IndexTip].y < lm[IndexJoint].y - Margin
      && lm[MiddleTip].y < lm[MiddleJoint].y - Margin
      && lm[RingTip].y < lm[RingJoint].y - Margin
    ensures g == Fist <==>
      && lm[IndexTip].y >= lm[IndexJoint].y - Margin
      && lm[MiddleTip].y >= lm[MiddleJoint].y - Margin
      && lm[RingTip].y >= lm[RingJoint].y - Margin
  {
    Classify(FingerUp(lm[IndexTip], lm[IndexJoint]),
             FingerUp(lm[MiddleTip], lm[MiddleJoint]),
             FingerUp(lm[RingTip], lm[RingJoint]))
  }

  /** The string the source returns for each gesture: exactly one of
      "v", "open", "fist" and "", distinct for distinct gestures, and
      empty (falsy) only for `NoGesture`. */
  function Label(g: Gesture): (s: string)
    ensures s == "v" || s == "open" || s == "fist" || s == ""
    ensures s == "" <==> g == NoGesture
  {
    match g
    case V => "v"
    case Open => "open"
    case Fist => "fist"
    case NoGesture => ""
  }

  /** Distinct gestures carry distinct labels, so the label alone
      determines the gesture. */
  lemma LabelInjective(g: Gesture, h: Gesture)
    ensures Label(g) == Label(h) <==> g == h
  {
  }
}
