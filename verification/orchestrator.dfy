/** The mode state machine (script.js:15-19, 92-130, 148-158, 167-190):
    the hand-tracker callback with its 1500 ms debounce, the text morph,
    the uncancelled revert to the planet, and one animation frame.  Time
    is the caller's `now`; a timer firing is an explicit `Revert` event. */
module Orchestrator {
  import opened GestureDetection
  import opened TextSampling
  import opened Particles
  import opened TextMorph

  /** Minimum gap, in milliseconds, between two accepted gestures; the
      gap must be strictly larger. */
  const DebounceMs: int := 1500

  /** Delay, in milliseconds, after which a morph reverts to the planet. */
  const RevertDelayMs: int := 4000

  /** Everything the page keeps between callbacks: the mode, the time of
      the last accepted gesture, the particles, the sparkle stars and the
      due times of the revert timers still pending, oldest first.  No
      transition reads the due times: when a timer fires is the order of
      events, and the times only document which morph scheduled it. */
  datatype State = State(mode: Mode, lastGesture: int, particles: seq<Particle>,
                         sparks: seq<Star>, reverts: seq<int>)

  predicate ValidStarDraws(draws: seq<StarDraw>)
  {
    |draws| >= SparkCount && forall k :: 0 <= k < |draws| ==> ValidStarDraw(draws[k])
  }

  predicate ValidParticleDraws(draws: seq<ParticleDraw>)
  {
    |draws| >= ParticleCount && forall i :: 0 <= i < |draws| ==> ValidParticleDraw(draws[i])
  }

  predicate ValidResets(resets: seq<real>, n: nat)
  {
    |resets| >= n && forall i :: 0 <= i < |resets| ==> Unit(resets[i])
  }

  /** The page as loaded: planet mode, no gesture yet (time 0), a fresh
      planet, no stars and no timers. */
  function Init(env: Env, draws: seq<ParticleDraw>): (s: State)
    requires ValidParticleDraws(draws)
    ensures Inv(s)
    ensures s.mode == Planet && s.lastGesture == 0 && s.sparks == [] && s.reverts == []
  {
    State(Planet, 0, InitPlanet(draws, env), [], [])
  }

  /** The message each gesture morphs into. */
  function Message(g: Gesture): (text: string)
    requires g != NoGesture
    ensures |text| > 0
  {
    match g
    case V => "You\U{2019}re kinda special \U{2728}"
    case Open => "Hey\U{2026} smile \U{1F60A}"
    case Fist => "This is for you \U{2764}\U{FE0F}"
  }

  /** Different gestures morph into different messages. */
  lemma MessagesDistinct(g: Gesture, h: Gesture)
    requires g != NoGesture && h != NoGesture
    ensures Message(g) == Message(h) <==> g == h
  {
  }

  /** The morph targets for a message on the current canvas. */
  function Targets(env: Env, text: string): seq<Point>
  {
    Sample(env.rasterize(text, env.width, env.height), env.width, env.height)
  }

  /** `morphToText`.  With targets, every particle is aimed round robin,
      exactly 80 new stars replace the old ones, the mode becomes text and
      one revert is scheduled 4000 ms on.  Otherwise the source throws:
      reading the pixels of a zero-sized canvas throws before anything
      changes; with no targets it throws at the first particle if there
      is one, before anything changes, and otherwise at the first star,
      after the stars were cleared. */
  function MorphToText(s: State, text: string, now: int, env: Env, draws: seq<StarDraw>): (r: State)
    requires ValidStarDraws(draws)
    ensures r.lastGesture == s.lastGesture && |r.particles| == |s.particles|
    ensures |Targets(env, text)| > 0 ==>
      && r.mode == Text
      && r.reverts == s.reverts + [now + RevertDelayMs]
      && r.sparks == SparkBatch(Targets(env, text), draws)
      && (forall i :: 0 <= i < |r.particles| ==>
            AimedAt(r.particles[i], s.particles[i], Targets(env, text)[i % |Targets(env, text)|]))
    ensures env.width == 0 || env.height == 0 ==> r == s
    ensures |Targets(env, text)| == 0 ==>
      && r.mode == s.mode && r.particles == s.particles && r.reverts == s.reverts
      && r.sparks == (if |s.particles| > 0 || env.width == 0 || env.height == 0 then s.sparks else [])
  {
    var targets := Targets(env, text);
    assert |targets| > 0 ==> targets[0].x < env.width && targets[0].y < env.height;
    if env.width == 0 || env.height == 0 then s
    else if |targets| == 0 then
      if |s.particles| > 0 then s else s.(sparks := [])
    else
      s.(particles := AssignTargets(s.particles, targets),
         sparks := SparkBatch(targets, draws),
         mode := Text,
         reverts := s.reverts + [now + RevertDelayMs])
  }

  /** Whether a tracker result at time `now` is accepted: a hand was seen,
      its label is a non-empty (truthy) string, and more than 1500 ms
      passed since the last accepted one. */
  function Accepted(s: State, hands: seq<seq<Landmark>>, now: int): (b: bool)
    requires |hands| > 0 ==> |hands[0]| > RingTip
    ensures b <==> |hands| > 0 && Label(Detect(hands[0])) != "" && now > s.lastGesture + DebounceMs
  {
    |hands| > 0 && Detect(hands[0]) != NoGesture && now - s.lastGesture > DebounceMs
  }

  /** `hands.onResults`: with no hand, no gesture, or within the debounce
      window nothing changes; otherwise the time is recorded and the page
      morphs into the gesture's message.  The time is recorded before the
      morph, so it stands even when the morph throws. */
  function OnResults(s: State, hands: seq<seq<Landmark>>, now: int, env: Env,
                     draws: seq<StarDraw>): (r: State)
    requires |hands| > 0 ==> |hands[0]| > RingTip
    requires ValidStarDraws(draws)
    ensures !Accepted(s, hands, now) ==> r == s
    ensures Accepted(s, hands, now) ==>
      r == MorphToText(s.(lastGesture := now), Message(Detect(hands[0])), now, env, draws)
    ensures r.lastGesture >= s.lastGesture
    ensures r.lastGesture != s.lastGesture ==> r.lastGesture == now && now > s.lastGesture + DebounceMs
  {
    if |hands| == 0 then s
    else
      var g := Detect(hands[0]);
      if g != NoGesture && now - s.lastGesture > DebounceMs then
        MorphToText(s.(lastGesture := now), Message(g), now, env, draws)
      else s
  }

  /** The oldest pending revert timer fires: planet mode and a fresh
      planet of 900 particles; the stars, the gesture time and the later
      timers are untouched.  Timers are never cancelled, so this may end
      a later morph early. */
  function Revert(s: State, env: Env, draws: seq<ParticleDraw>): (r: State)
    requires |s.reverts| > 0
    requires ValidParticleDraws(draws)
    ensures r.mode == Planet && r.reverts == s.reverts[1..]
    ensures r.sparks == s.sparks && r.lastGesture == s.lastGesture
    ensures |r.particles| == ParticleCount
    ensures forall i :: 0 <= i < |r.particles| ==> 60.0 <= r.particles[i].radius < 140.0
  {
    s.(mode := Planet, particles := InitPlanet(draws, env), reverts := s.reverts[1..])
  }

  /** One animation frame: every particle follows the current mode's rule
      and the sparkle stars go through the pruning pass, which equals the
      sweep over the star list; nothing else changes. */
  function Animate(s: State, env: Env, resets: seq<real>): (r: State)
    requires ValidResets(resets, |s.particles|)
    ensures r.mode == s.mode && r.lastGesture == s.lastGesture && r.reverts == s.reverts
    ensures |r.particles| == |s.particles|
    ensures forall i :: 0 <= i < |r.particles| ==>
      r.particles[i] == Update(s.particles[i], s.mode, resets[i], env)
    ensures r.sparks == Sweep(s.sparks)
  {
    s.(particles := seq(|s.particles|, i requires 0 <= i < |s.particles| =>
                          Update(s.particles[i], s.mode, resets[i], env)),
       sparks := SparkFrame(s.sparks))
  }

  /** What holds of every state the page can reach: 900 well-formed
      particles, no spark past its lifespan and every lifespan in
      [30, 50), and text mode only while a revert is pending. */
  predicate Inv(s: State)
  {
    && |s.particles| == ParticleCount
    && (forall i :: 0 <= i < |s.particles| ==> WellFormed(s.particles[i]))
    && AllLive(s.sparks)
    && (forall k :: 0 <= k < |s.sparks| ==> 30.0 <= s.sparks[k].maxLife < 50.0)
    && (s.mode == Text ==> |s.reverts| > 0)
  }

  lemma MorphKeepsInv(s: State, text: string, now: int, env: Env, draws: seq<StarDraw>)
    requires Inv(s) && ValidStarDraws(draws)
    ensures Inv(MorphToText(s, text, now, env, draws))
  {
    var r := MorphToText(s, text, now, env, draws);
    var targets := Targets(env, text);
    if |targets| > 0 {
      forall i | 0 <= i < |r.particles|
        ensures WellFormed(r.particles[i])
      {
        assert AimedAt(r.particles[i], s.particles[i], targets[i % |targets|]);
      }
    }
  }

  /** A tracker result keeps the invariant. */
  lemma OnResultsKeepsInv(s: State, hands: seq<seq<Landmark>>, now: int, env: Env,
                          draws: seq<StarDraw>)
    requires Inv(s)
    requires |hands| > 0 ==> |hands[0]| > RingTip
    requires ValidStarDraws(draws)
    ensures Inv(OnResults(s, hands, now, env, draws))
  {
    if Accepted(s, hands, now) {
      MorphKeepsInv(s.(lastGesture := now), Message(Detect(hands[0])), now, env, draws);
    }
  }

  /** A revert keeps the invariant. */
  lemma RevertKeepsInv(s: State, env: Env, draws: seq<ParticleDraw>)
    requires Inv(s) && |s.reverts| > 0 && ValidParticleDraws(draws)
    ensures Inv(Revert(s, env, draws))
  {
  }

  /** An animation frame keeps the invariant: planet particles stay in
      their radius band, text particles do not touch theirs, and the
      pruning pass leaves only live stars with their lifespans. */
  lemma AnimateKeepsInv(s: State, env: Env, resets: seq<real>)
    requires Inv(s) && ValidResets(resets, |s.particles|)
    ensures Inv(Animate(s, env, resets))
  {
    var r := Animate(s, env, resets);
    SweepKeepsLive(s.sparks);
    SweepProvenance(s.sparks);
    forall k | 0 <= k < |r.sparks|
      ensures 30.0 <= r.sparks[k].maxLife < 50.0
    {
      var t := r.sparks[k];
      assert t in Sweep(s.sparks);
      var i :| 0 <= i < |s.sparks| && (t == s.sparks[i] || t == StarStep(s.sparks[i]));
    }
  }

  /** The events the page reacts to. */
  datatype Event =
    | Hands(hands: seq<seq<Landmark>>, now: int, starDraws: seq<StarDraw>)
    | TimerFires(particleDraws: seq<ParticleDraw>)
    | Frame(resets: seq<real>)

  /** Whether an event can occur in state `s`: landmark lists as the
      tracker delivers them, random draws in range, and a timer firing
      only while one is pending. */
  predicate EventOk(s: State, e: Event)
  {
    match e
    case Hands(hands, _, draws) => (|hands| > 0 ==> |hands[0]| > RingTip) && ValidStarDraws(draws)
    case TimerFires(draws) => |s.reverts| > 0 && ValidParticleDraws(draws)
    case Frame(resets) => ValidResets(resets, |s.particles|)
  }

  /** The page's reaction to one event.  The gesture time never goes
      back, a timer always leaves planet mode, and planet mode turns into
      text mode only through an accepted tracker result. */
  function Step(s: State, e: Event, env: Env): (r: State)
    requires EventOk(s, e)
    ensures r.lastGesture >= s.lastGesture
    ensures e.TimerFires? ==> r.mode == Planet
    ensures s.mode == Planet && r.mode == Text ==> e.Hands? && r.lastGesture == e.now
  {
    match e
    case Hands(hands, now, draws) => OnResults(s, hands, now, env, draws)
    case TimerFires(draws) => Revert(s, env, draws)
    case Frame(resets) => Animate(s, env, resets)
  }

  /** Whether every event of a run can occur when it arrives. */
  predicate RunOk(s: State, es: seq<Event>, env: Env)
    decreases |es|
  {
    |es| == 0 || (EventOk(s, es[0]) && RunOk(Step(s, es[0], env), es[1..], env))
  }

  /** The page's reaction to a sequence of events.  The gesture time never
      goes back, and without tracker results it stays put and the planet
      stays a planet. */
  function Run(s: State, es: seq<Event>, env: Env): (r: State)
    requires RunOk(s, es, env)
    ensures r.lastGesture >= s.lastGesture
    ensures (forall k :: 0 <= k < |es| ==> !es[k].Hands?) ==>
      r.lastGesture == s.lastGesture && (s.mode == Planet ==> r.mode == Planet)
    decreases |es|
  {
    if |es| == 0 then s else Run(Step(s, es[0], env), es[1..], env)
  }

  /** Every state reachable from the loaded page satisfies the invariant:
      in particular the particle count is 900 forever and every radius
      stays within [40, 170]. */
  lemma {:induction false} RunKeepsInv(s: State, es: seq<Event>, env: Env)
    requires Inv(s) && RunOk(s, es, env)
    ensures Inv(Run(s, es, env))
    decreases |es|
  {
    if |es| > 0 {
      var e := es[0];
      match e {
        case Hands(hands, now, draws) => OnResultsKeepsInv(s, hands, now, env, draws);
        case TimerFires(draws) => RevertKeepsInv(s, env, draws);
        case Frame(resets) => AnimateKeepsInv(s, env, resets);
      }
      RunKeepsInv(Step(s, e, env), es[1..], env);
    }
  }

  // ---------------------------------------------------------------------
  // Debounce and timer scenarios
  // ---------------------------------------------------------------------

  /** A second gesture no more than 1500 ms after an accepted one is
      ignored entirely. */
  lemma DebounceSuppresses(s: State, h1: seq<seq<Landmark>>, t1: int, h2: seq<seq<Landmark>>, t2: int,
                           env: Env, d1: seq<StarDraw>, d2: seq<StarDraw>)
    requires |h1| > 0 ==> |h1[0]| > RingTip
    requires |h2| > 0 ==> |h2[0]| > RingTip
    requires ValidStarDraws(d1) && ValidStarDraws(d2)
    requires Accepted(s, h1, t1) && t2 - t1 <= DebounceMs
    ensures OnResults(OnResults(s, h1, t1, env, d1), h2, t2, env, d2) == OnResults(s, h1, t1, env, d1)
  {
  }

  /** Two gestures more than 1500 ms apart are both accepted: the second
      one's time is recorded and, when both messages yield targets, each
      schedules its own revert and the page ends in text mode. */
  lemma SpacedGesturesBothAccepted(s: State, h1: seq<seq<Landmark>>, t1: int, h2: seq<seq<Landmark>>,
                                   t2: int, env: Env, d1: seq<StarDraw>, d2: seq<StarDraw>)
    requires |h1| > 0 && |h1[0]| > RingTip && |h2| > 0 && |h2[0]| > RingTip
    requires ValidStarDraws(d1) && ValidStarDraws(d2)
    requires Detect(h1[0]) != NoGesture && Detect(h2[0]) != NoGesture
    requires t1 - s.lastGesture > DebounceMs && t2 - t1 > DebounceMs
    requires |Targets(env, Message(Detect(h1[0])))| > 0 && |Targets(env, Message(Detect(h2[0])))| > 0
    ensures var s2 := OnResults(OnResults(s, h1, t1, env, d1), h2, t2, env, d2);
      s2.lastGesture == t2 && s2.mode == Text
      && s2.reverts == s.reverts + [t1 + RevertDelayMs, t2 + RevertDelayMs]
  {
    var s1 := OnResults(s, h1, t1, env, d1);
    assert Accepted(s, h1, t1);
    assert s1.lastGesture == t1;
    assert Accepted(s1, h2, t2);
  }

  /** Revert timers are not cancelled: after two morphs between 1500 and
      4000 ms apart, the first morph's timer is still pending when the
      second gesture arrives, fires first, and ends the second morph's
      text display while the second timer is still pending. */
  lemma StaleRevertEndsLaterMorph(s: State, h1: seq<seq<Landmark>>, t1: int, h2: seq<seq<Landmark>>,
                                  t2: int, env: Env, d1: seq<StarDraw>, d2: seq<StarDraw>,
                                  pd: seq<ParticleDraw>)
    requires s.reverts == []
    requires |h1| > 0 && |h1[0]| > RingTip && |h2| > 0 && |h2[0]| > RingTip
    requires ValidStarDraws(d1) && ValidStarDraws(d2) && ValidParticleDraws(pd)
    requires Detect(h1[0]) != NoGesture && Detect(h2[0]) != NoGesture
    requires t1 - s.lastGesture > DebounceMs && t2 - t1 > DebounceMs && t2 < t1 + RevertDelayMs
    requires |Targets(env, Message(Detect(h1[0])))| > 0 && |Targets(env, Message(Detect(h2[0])))| > 0
    ensures var s2 := OnResults(OnResults(s, h1, t1, env, d1), h2, t2, env, d2);
      s2.reverts == [t1 + RevertDelayMs, t2 + RevertDelayMs]
      && t2 < t1 + RevertDelayMs < t2 + RevertDelayMs
      && var s3 := Revert(s2, env, pd);
      s3.mode == Planet && s3.reverts == [t2 + RevertDelayMs]
  {
    SpacedGesturesBothAccepted(s, h1, t1, h2, t2, env, d1, d2);
  }

  /** End to end: an accepted gesture whose message yields targets puts
      the page in text mode with every particle aimed at a sampled target,
      exactly 80 stars each near a target, and a revert pending; firing
      that revert restores planet mode with 900 particles. */
  lemma GestureMorphsAndReverts(s: State, hands: seq<seq<Landmark>>, now: int, env: Env,
                                draws: seq<StarDraw>, pd: seq<ParticleDraw>)
    requires Inv(s)
    requires |hands| > 0 && |hands[0]| > RingTip
    requires ValidStarDraws(draws) && ValidParticleDraws(pd)
    requires Accepted(s, hands, now)
    requires |Targets(env, Message(Detect(hands[0])))| > 0
    ensures var r := OnResults(s, hands, now, env, draws);
      var targets := Targets(env, Message(Detect(hands[0])));
      && r.mode == Text && r.lastGesture == now && |r.reverts| > 0
      && |r.particles| == ParticleCount
      && (forall i :: 0 <= i < |r.particles| ==> AimsAtSome(r.particles[i], targets))
      && |r.sparks| == SparkCount
      && (forall k :: 0 <= k < |r.sparks| ==> NearSome(r.sparks[k], targets))
      && Revert(r, env, pd).mode == Planet && |Revert(r, env, pd).particles| == ParticleCount
  {
    var r := OnResults(s, hands, now, env, draws);
    var targets := Targets(env, Message(Detect(hands[0])));
    assert r == MorphToText(s.(lastGesture := now), Message(Detect(hands[0])), now, env, draws);
    assert r.mode == Text && r.lastGesture == now && |r.reverts| > 0;
    assert r.sparks == SparkBatch(targets, draws);
    assert r.particles == AssignTargets(s.particles, targets);
    AssignedTargetsAreSampled(s.particles, targets);
    SparksNearTargets(targets, draws);
    assert |r.particles| == |s.particles| == ParticleCount;
  }
}
