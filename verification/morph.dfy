/** The two steps of a text morph that act on the sampled targets
    (script.js:114-125): round-robin target assignment and the batch of
    sparkle stars. */
module TextMorph {
  import opened TextSampling
  import opened Particles

  /** Number of stars created by each morph. */
  const SparkCount: nat := 80

  /** Whether particle `q` is particle `p` aimed at target `t`, with every
      other field as it was. */
  predicate AimedAt(q: Particle, p: Particle, t: Point)
  {
    q == p.(tx := t.x as real, ty := t.y as real)
  }

  /** Particle `i` is aimed at target `i mod n`.  The source reads
      `targets[i % 0]`, which is `undefined`, and throws when there are no
      targets, so at least one is needed. */
  function AssignTargets(ps: seq<Particle>, targets: seq<Point>): (r: seq<Particle>)
    requires |targets| > 0
    ensures |r| == |ps|
    ensures forall i :: 0 <= i < |r| ==> AimedAt(r[i], ps[i], targets[i % |targets|])
  {
    seq(|ps|, i requires 0 <= i < |ps| =>
      ps[i].(tx := targets[i % |targets|].x as real, ty := targets[i % |targets|].y as real))
  }

  /** The target a particle is aiming at. */
  function TargetOf(p: Particle): (real, real)
  {
    (p.tx, p.ty)
  }

  function AsTarget(t: Point): (real, real)
  {
    (t.x as real, t.y as real)
  }

  /** Whether particle `p` is aimed at one of `targets`. */
  predicate AimsAtSome(p: Particle, targets: seq<Point>)
  {
    exists j :: 0 <= j < |targets| && TargetOf(p) == AsTarget(targets[j])
  }

  /** Every particle aims at one of the sampled targets. */
  lemma AssignedTargetsAreSampled(ps: seq<Particle>, targets: seq<Point>)
    requires |targets| > 0
    ensures forall i :: 0 <= i < |ps| ==> AimsAtSome(AssignTargets(ps, targets)[i], targets)
  {
    var r := AssignTargets(ps, targets);
    forall i | 0 <= i < |ps|
      ensures AimsAtSome(r[i], targets)
    {
      var j := i % |targets|;
      assert TargetOf(r[i]) == AsTarget(targets[j]);
    }
  }

  /** Particles `n` apart share a target, `n` being the number of
      targets. */
  lemma AssignmentIsPeriodic(ps: seq<Particle>, targets: seq<Point>, i: nat)
    requires |targets| > 0 && i + |targets| < |ps|
    ensures TargetOf(AssignTargets(ps, targets)[i]) == TargetOf(AssignTargets(ps, targets)[i + |targets|])
  {
    ModShift(i, |targets|);
  }

  /** A positive multiple of `n` is at least `n`. */
  lemma MulAtLeast(k: int, n: int)
    requires k >= 1 && n > 0
    ensures k * n >= n
  {
    assert k * n == (k - 1) * n + n;
    assert (k - 1) * n >= 0;
  }
  /** Euclidean division is unique: a quotient and remainder in range
      determine `a % n`. */
  lemma ModUnique(a: int, n: int, q: int, r: int)
    requires n > 0 && 0 <= r < n && a == q * n + r
    ensures a % n == r
  {
    var q', r' := a / n, a % n;
    assert a == q' * n + r';
    assert (q - q') * n == r' - r by {
      assert q * n - q' * n == (q - q') * n;
    }
    if q > q' {
      MulAtLeast(q - q', n);
    } else if q < q' {
      MulAtLeast(q' - q, n);
    }
  }
  /** Adding the modulus does not change the remainder. */
  lemma ModShift(i: nat, n: nat)
    requires n > 0
    ensures (i + n) % n == i % n
  {
    assert i == (i / n) * n + i % n;
    assert i + n == (i / n + 1) * n + i % n;
    ModUnique(i + n, n, i / n + 1, i % n);
  }

  /** The first `min(|ps|, n)` particles take the targets in order, so
      with at least as many particles as targets every target gets a
      particle. */
  lemma AssignmentPrefix(ps: seq<Particle>, targets: seq<Point>, j: nat)
    requires |targets| > 0 && j < |targets| && j < |ps|
    ensures TargetOf(AssignTargets(ps, targets)[j]) == AsTarget(targets[j])
  {
    assert j % |targets| == j;
  }

  /** Targets past the particle count are aimed at by no particle unless
      an earlier target coincides with them. */
  lemma SurplusTargetsUnused(ps: seq<Particle>, targets: seq<Point>, j: nat)
    requires |ps| < |targets| && |ps| <= j < |targets|
    requires forall k :: 0 <= k < j ==> targets[k] != targets[j]
    ensures forall i :: 0 <= i < |ps| ==> AssignTargets(ps, targets)[i] != ps[i].(tx := targets[j].x as real, ty := targets[j].y as real)
  {
    var r := AssignTargets(ps, targets);
    forall i | 0 <= i < |ps|
      ensures r[i] != ps[i].(tx := targets[j].x as real, ty := targets[j].y as real)
    {
      assert i % |targets| == i;
      assert targets[i] != targets[j];
    }
  }

  /** Index of the target a star's draw picks:
      `Math.floor(Math.random() * n)`. */
  function PickIndex(d: StarDraw, n: nat): (i: nat)
    requires ValidStarDraw(d) && n > 0
    ensures i < n
    ensures i as real <= d.pick * n as real < i as real + 1.0
  {
    var x := d.pick * n as real;
    assert (1.0 - d.pick) * n as real > 0.0;
    var f := x.Floor;
    assert f as real <= x < f as real + 1.0;
    f
  }

  /** Whether star `s` lies within 10 of point `t` on each axis. */
  predicate Near(s: Star, t: Point)
  {
    t.x as real - 10.0 <= s.x < t.x as real + 10.0 && t.y as real - 10.0 <= s.y < t.y as real + 10.0
  }

  /** The morph's star batch: exactly 80 fresh stars, star `k` anchored at
      the target its draw picks, so each lies near some target, starts at
      life 0 and lives between 30 and 50 frames. */
  function SparkBatch(targets: seq<Point>, draws: seq<StarDraw>): (stars: seq<Star>)
    requires |targets| > 0 && |draws| >= SparkCount
    requires forall k :: 0 <= k < |draws| ==> ValidStarDraw(draws[k])
    ensures |stars| == SparkCount
    ensures forall k :: 0 <= k < SparkCount ==> Near(stars[k], targets[PickIndex(draws[k], |targets|)])
    ensures forall k :: 0 <= k < |stars| ==> stars[k].life == 0 && 30.0 <= stars[k].maxLife < 50.0
  {
    seq(SparkCount, k requires 0 <= k < SparkCount => AnchoredStar(targets, draws[k]))
  }

  /** One star of the batch: pick a target with the draw, then jitter
      around it. */
  function AnchoredStar(targets: seq<Point>, d: StarDraw): (s: Star)
    requires |targets| > 0 && ValidStarDraw(d)
    ensures Near(s, targets[PickIndex(d, |targets|)])
    ensures s.life == 0 && 30.0 <= s.maxLife < 50.0
  {
    var t := targets[PickIndex(d, |targets|)];
    NewStar(t.x as real, t.y as real, d)
  }

  /** Whether star `s` lies within 10 of one of `targets`. */
  predicate NearSome(s: Star, targets: seq<Point>)
  {
    exists j :: 0 <= j < |targets| && Near(s, targets[j])
  }

  /** Every star of a batch lies within 10 of some sampled target. */
  lemma SparksNearTargets(targets: seq<Point>, draws: seq<StarDraw>)
    requires |targets| > 0 && |draws| >= SparkCount
    requires forall k :: 0 <= k < |draws| ==> ValidStarDraw(draws[k])
    ensures forall k :: 0 <= k < SparkCount ==> NearSome(SparkBatch(targets, draws)[k], targets)
  {
    var stars := SparkBatch(targets, draws);
    forall k | 0 <= k < SparkCount
      ensures NearSome(stars[k], targets)
    {
      var j := PickIndex(draws[k], |targets|);
      assert Near(stars[k], targets[j]);
    }
  }
}
