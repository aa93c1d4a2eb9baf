/** Particles and sparkle stars with their per-frame update rules
    (script.js:22-88, 183-187).  Every `Math.random()` result is a
    parameter in [0, 1); the canvas size and the trigonometric functions
    come from an `Env`.  Arithmetic is over `real`, not IEEE doubles. */
module Particles {

  /** Which update rule the particles follow. */
  datatype Mode = Planet | Text

  /** What the browser supplies: the canvas size, the cosine and sine used
      to place a particle from its polar coordinates, and the text
      rasteriser, which returns the RGBA bytes of a string drawn centred on
      a canvas of the given size. */
  datatype Env = Env(width: nat, height: nat, cos: real -> real, sin: real -> real,
                     rasterize: (string, nat, nat) -> seq<int>)

  /** A value `Math.random()` can return. */
  predicate Unit(r: real)
  {
    0.0 <= r < 1.0
  }

  function CenterX(env: Env): real { env.width as real / 2.0 }
  function CenterY(env: Env): real { env.height as real / 2.0 }

  /** A disk particle: polar position, cached cartesian position, morph
      target, size, angular speed and hue of its colour. */
  datatype Particle = Particle(radius: real, angle: real, x: real, y: real,
                               tx: real, ty: real, size: real, speed: real, hue: real)

  /** The random draws that create one particle, in the order the source
      makes them: angle, radius, colour, size, speed. */
  datatype ParticleDraw = ParticleDraw(angle: real, radius: real, hue: real, size: real, speed: real)

  predicate ValidParticleDraw(d: ParticleDraw)
  {
    Unit(d.angle) && Unit(d.radius) && Unit(d.hue) && Unit(d.size) && Unit(d.speed)
  }

  /** Number of particles in the planet formation. */
  const ParticleCount: nat := 900

  /* Planet-mode constants. */
  const InwardStep: real := 0.02
  const InnerRadius: real := 40.0
  const ResetBase: real := 140.0
  const ResetSpan: real := 30.0
  const InitBase: real := 60.0
  const InitSpan: real := 80.0

  /** Text-mode blend factor. */
  const Ease: real := 0.08

  /** Constructs a particle at polar (radius, angle): the target starts at
      the particle's own position, size lies in [1, 3), speed in
      [0.002, 0.005) and hue in [0, 360). */
  function NewParticle(radius: real, angle: real, hueDraw: real, sizeDraw: real, speedDraw: real,
                       env: Env): (p: Particle)
    requires Unit(hueDraw) && Unit(sizeDraw) && Unit(speedDraw)
    ensures p.radius == radius && p.angle == angle
    ensures p.x == CenterX(env) + env.cos(angle) * radius
    ensures p.y == CenterY(env) + env.sin(angle) * radius
    ensures p.tx == p.x && p.ty == p.y
    ensures 1.0 <= p.size < 3.0
    ensures 0.002 <= p.speed < 0.005
    ensures 0.0 <= p.hue < 360.0
  {
    var x := CenterX(env) + env.cos(angle) * radius;
    var y := CenterY(env) + env.sin(angle) * radius;
    Particle(radius, angle, x, y, x, y, sizeDraw * 2.0 + 1.0, 0.002 + speedDraw * 0.003, hueDraw * 360.0)
  }

  /** A fresh planet particle: angle in [0, 2*pi), radius in [60, 140). */
  function PlanetParticle(d: ParticleDraw, env: Env): (p: Particle)
    requires ValidParticleDraw(d)
    ensures InitBase <= p.radius < InitBase + InitSpan
    ensures 0.0 <= p.angle < 2.0 * Pi
    ensures p.x == CenterX(env) + env.cos(p.angle) * p.radius
    ensures p.y == CenterY(env) + env.sin(p.angle) * p.radius
    ensures 0.002 <= p.speed < 0.005
  {
    assert d.angle * 2.0 * Pi < 2.0 * Pi by {
      assert (1.0 - d.angle) * (2.0 * Pi) > 0.0;
    }
    NewParticle(InitBase + d.radius * InitSpan, d.angle * 2.0 * Pi, d.hue, d.size, d.speed, env)
  }

  /** The value of `Math.PI` used for the initial angle. */
  const Pi: real := 3.141592653589793

  /** The radius band a planet particle never leaves. */
  predicate InBand(p: Particle)
  {
    InnerRadius <= p.radius <= ResetBase + ResetSpan
  }

  /** A particle's per-frame state apart from its cartesian position is
      well formed: radius in band and speed in its constructed range. */
  predicate WellFormed(p: Particle)
  {
    InBand(p) && 0.002 <= p.speed < 0.005
  }

  /** A fresh planet: exactly 900 particles, each with radius in [60, 140)
      and its target at its own position. */
  function InitPlanet(draws: seq<ParticleDraw>, env: Env): (ps: seq<Particle>)
    requires |draws| >= ParticleCount
    requires forall i :: 0 <= i < |draws| ==> ValidParticleDraw(draws[i])
    ensures |ps| == ParticleCount
    ensures forall i :: 0 <= i < |ps| ==>
      60.0 <= ps[i].radius < 140.0 && WellFormed(ps[i]) && ps[i].tx == ps[i].x && ps[i].ty == ps[i].y
  {
    seq(ParticleCount, i requires 0 <= i < ParticleCount => PlanetParticle(draws[i], env))
  }

  /** One planet-mode frame: the angle advances by the particle's speed
      and the radius shrinks by 0.02; a radius that falls below 40 is
      reset into [140, 170).  The cartesian position follows the new
      polar position; nothing else changes. */
  function PlanetStep(p: Particle, reset: real, env: Env): (q: Particle)
    requires Unit(reset)
    ensures q.angle == p.angle + p.speed
    ensures p.radius - InwardStep >= InnerRadius ==> q.radius == p.radius - InwardStep
    ensures p.radius - InwardStep < InnerRadius ==> ResetBase <= q.radius < ResetBase + ResetSpan
    ensures q.radius >= InnerRadius
    ensures q.x == CenterX(env) + env.cos(q.angle) * q.radius
    ensures q.y == CenterY(env) + env.sin(q.angle) * q.radius
    ensures q.(x := p.x, y := p.y, angle := p.angle, radius := p.radius) == p
  {
    var angle := p.angle + p.speed;
    var shrunk := p.radius - InwardStep;
    var radius := if shrunk < InnerRadius then ResetBase + reset * ResetSpan else shrunk;
    p.(angle := angle, radius := radius,
       x := CenterX(env) + env.cos(angle) * radius,
       y := CenterY(env) + env.sin(angle) * radius)
  }

  /** One text-mode frame: an 8% step toward the target, so the remaining
      distance is scaled by exactly 0.92 and the particle never passes its
      target.  Only the cartesian position changes. */
  function TextStep(p: Particle): (q: Particle)
    ensures p.tx - q.x == 0.92 * (p.tx - p.x)
    ensures p.ty - q.y == 0.92 * (p.ty - p.y)
    ensures (p.x <= q.x <= p.tx) || (p.tx <= q.x <= p.x)
    ensures (p.y <= q.y <= p.ty) || (p.ty <= q.y <= p.y)
    ensures q.(x := p.x, y := p.y) == p
  {
    p.(x := p.x + (p.tx - p.x) * Ease, y := p.y + (p.ty - p.y) * Ease)
  }

  /** `Particle.update`: the rule for the current mode. */
  function Update(p: Particle, mode: Mode, reset: real, env: Env): (q: Particle)
    requires Unit(reset)
    ensures mode == Planet ==> q == PlanetStep(p, reset, env)
    ensures mode == Text ==> q == TextStep(p)
    ensures WellFormed(p) ==> WellFormed(q)
    ensures q.tx == p.tx && q.ty == p.ty && q.speed == p.speed && q.size == p.size && q.hue == p.hue
  {
    match mode
    case Planet => PlanetStep(p, reset, env)
    case Text => TextStep(p)
  }

  /** `n` consecutive planet frames, frame `k` drawing `resets[k]`. */
  function PlanetSteps(p: Particle, resets: seq<real>, env: Env): Particle
    requires forall k :: 0 <= k < |resets| ==> Unit(resets[k])
    decreases |resets|
  {
    if |resets| == 0 then p
    else PlanetSteps(PlanetStep(p, resets[0], env), resets[1..], env)
  }

  /** Radius stays within [40, 170] forever: any number of planet frames,
      whatever the random draws, keep a particle in band. */
  lemma {:induction false} PlanetStaysInBand(p: Particle, resets: seq<real>, env: Env)
    requires InBand(p)
    requires forall k :: 0 <= k < |resets| ==> Unit(resets[k])
    ensures InBand(PlanetSteps(p, resets, env))
    ensures PlanetSteps(p, resets, env).speed == p.speed
    decreases |resets|
  {
    if |resets| > 0 {
      PlanetStaysInBand(PlanetStep(p, resets[0], env), resets[1..], env);
    }
  }

  /** `b` raised to the `n`-th power. */
  function Pow(b: real, n: nat): real
  {
    if n == 0 then 1.0 else b * Pow(b, n - 1)
  }

  /** `n` consecutive text frames. */
  function TextSteps(p: Particle, n: nat): Particle
    decreases n
  {
    if n == 0 then p else TextSteps(TextStep(p), n - 1)
  }

  /** After `n` text frames the distance to the target is 0.92^n times the
      original one, and the target itself has not moved. */
  lemma {:induction false} TextStepsContract(p: Particle, n: nat)
    ensures TextSteps(p, n).tx == p.tx && TextSteps(p, n).ty == p.ty
    ensures p.tx - TextSteps(p, n).x == Pow(0.92, n) * (p.tx - p.x)
    ensures p.ty - TextSteps(p, n).y == Pow(0.92, n) * (p.ty - p.y)
    decreases n
  {
    if n > 0 {
      var q := TextStep(p);
      TextStepsContract(q, n - 1);
      assert TextSteps(p, n) == TextSteps(q, n - 1);
      assert Pow(0.92, n) * (p.tx - p.x) == Pow(0.92, n - 1) * (0.92 * (p.tx - p.x));
      assert Pow(0.92, n) * (p.ty - p.y) == Pow(0.92, n - 1) * (0.92 * (p.ty - p.y));
    }
  }

  /** The factor 0.92^n lies in (0, 1]: the distance shrinks but never
      reaches zero or changes sign. */
  lemma {:induction false} PowShrinks(n: nat)
    ensures 0.0 < Pow(0.92, n) <= 1.0
  {
    if n > 0 {
      PowShrinks(n - 1);
    }
  }

  // ---------------------------------------------------------------------
  // Sparkle stars
  // ---------------------------------------------------------------------

  /** A sparkle star: jittered position, size, frame counter, lifespan
      and hue. */
  datatype Star = Star(x: real, y: real, size: real, life: nat, maxLife: real, hue: real)

  /** The random draws that create one star from a morph, in source
      order: which target, x jitter, y jitter, size, lifespan, colour. */
  datatype StarDraw = StarDraw(pick: real, jx: real, jy: real, size: real, life: real, hue: real)

  predicate ValidStarDraw(d: StarDraw)
  {
    Unit(d.pick) && Unit(d.jx) && Unit(d.jy) && Unit(d.size) && Unit(d.life) && Unit(d.hue)
  }

  /** A new star anchored at (ax, ay): within 10 of the anchor on each
      axis, life 0, lifespan in [30, 50). */
  function NewStar(ax: real, ay: real, d: StarDraw): (s: Star)
    requires ValidStarDraw(d)
    ensures ax - 10.0 <= s.x < ax + 10.0 && ay - 10.0 <= s.y < ay + 10.0
    ensures s.life == 0
    ensures 30.0 <= s.maxLife < 50.0
    ensures 1.0 <= s.size < 3.0
  {
    Star(ax + (d.jx * 20.0 - 10.0), ay + (d.jy * 20.0 - 10.0), d.size * 2.0 + 1.0,
         0, 30.0 + d.life * 20.0, d.hue * 360.0)
  }

  /** `Star.update`: one more frame of life, nothing else changes. */
  function StarStep(s: Star): (t: Star)
    ensures t.life == s.life + 1
    ensures t.(life := s.life) == s
  {
    s.(life := s.life + 1)
  }

  /** The alpha `Star.draw` assigns after this frame's update
      (script.js:71).  It is at most 1, and negative exactly when the star
      has outlived its lifespan, which happens on the frame it expires:
      the star is drawn before it is removed. */
  function Alpha(s: Star): (a: real)
    requires s.maxLife > 0.0
    ensures a <= 1.0
    ensures a < 0.0 <==> Expired(s)
  {
    var l := s.life as real;
    RatioAboveOne(l, s.maxLife);
    1.0 - l / s.maxLife
  }

  /** For a positive `m` and a non-negative `l`, `l / m` is non-negative,
      and above 1 exactly when `l` exceeds `m`. */
  lemma RatioAboveOne(l: real, m: real)
    requires m > 0.0 && l >= 0.0
    ensures l / m >= 0.0
    ensures l / m > 1.0 <==> l > m
  {
    var q := l / m;
    assert q * m == l;
    assert (q - 1.0) * m == l - m;
    if q > 1.0 {
      assert (q - 1.0) * m > 0.0;
    } else {
      assert (1.0 - q) * m >= 0.0;
    }
  }

  /** Each update lowers the opacity by exactly 1/maxLife, so it strictly
      decreases. */
  lemma AlphaDecreases(s: Star)
    requires s.maxLife > 0.0
    ensures Alpha(StarStep(s)) == Alpha(s) - 1.0 / s.maxLife
    ensures Alpha(StarStep(s)) < Alpha(s)
  {
    var m := s.maxLife;
    var l := s.life as real;
    assert (l + 1.0) / m == l / m + 1.0 / m;
  }

  /** The opacity is at most zero exactly when the life counter has
      reached the lifespan. */
  lemma AlphaFadesOut(s: Star)
    requires s.maxLife > 0.0
    ensures Alpha(s) <= 0.0 <==> s.life as real >= s.maxLife
  {
    var m := s.maxLife;
    var l := s.life as real;
    assert l / m * m == l;
    if l >= m {
      assert l / m >= 1.0;
    } else {
      assert l / m < 1.0;
    }
  }

  /** A star the frame loop removes: its life exceeds its lifespan. */
  predicate Expired(s: Star)
  {
    s.life as real > s.maxLife
  }

  /** The opacity the canvas draws with after `globalAlpha` is assigned
      `a` while `current` is in force: a value outside [0, 1] is ignored
      and the current one stays. */
  function CanvasAlpha(current: real, a: real): real
  {
    if 0.0 <= a <= 1.0 then a else current
  }

  /** As written, a star is drawn once more on the frame it expires.  The
      alpha in force is the 1 restored after every draw (script.js:55, 76),
      and the canvas ignores the negative alpha, so a star drawn almost
      transparent on one frame is drawn fully opaque on the next, just
      before it is removed. */
  lemma ExpiringStarFlashes(s: Star)
    requires s.maxLife > 0.0 && !Expired(s) && Expired(StarStep(s))
    ensures 0.0 <= CanvasAlpha(1.0, Alpha(s)) < 1.0 / s.maxLife
    ensures CanvasAlpha(1.0, Alpha(StarStep(s))) == 1.0
  {
    var m, l := s.maxLife, s.life as real;
    assert l <= m < l + 1.0;
    assert l / m <= 1.0 by {
      assert l / m * m == l;
    }
    assert 1.0 - l / m < 1.0 / m by {
      assert (l + 1.0) / m > 1.0;
      assert (l + 1.0) / m == l / m + 1.0 / m;
    }
  }

  /** The fade the draw evidently intends: the assigned alpha, but never
      below 0, so an expired star is invisible. */
  function FadeAlpha(s: Star): (a: real)
    requires s.maxLife > 0.0
    ensures 0.0 <= a <= 1.0
    ensures Expired(s) ==> a == 0.0
  {
    if Alpha(s) < 0.0 then 0.0 else Alpha(s)
  }

  /** With the intended fade, the canvas uses the alpha as assigned, the
      opacity never rises from one frame to the next, and a star is
      invisible on the frame it expires. */
  lemma FadeNeverFlashes(s: Star, current: real)
    requires s.maxLife > 0.0
    ensures CanvasAlpha(current, FadeAlpha(s)) == FadeAlpha(s)
    ensures FadeAlpha(StarStep(s)) <= FadeAlpha(s)
    ensures Expired(StarStep(s)) ==> CanvasAlpha(current, FadeAlpha(StarStep(s))) == 0.0
  {
    AlphaDecreases(s);
  }

  /** The sparkle pass exactly as the source writes it: `forEach` over the
      array while `splice` removes the current element.  `forEach` fixes
      the number of visits at the starting length `len` and skips indices
      that no longer exist; a removal shifts the next star into the
      current index, which the following visit has already passed. */
  function SparkPass(stars: seq<Star>, k: nat, len: nat): (r: seq<Star>)
    ensures |r| <= |stars|
    decreases len - k
  {
    if k >= len then stars
    else if k >= |stars| then SparkPass(stars, k + 1, len)
    else
      var s := StarStep(stars[k]);
      if Expired(s) then SparkPass(stars[..k] + stars[k + 1..], k + 1, len)
      else SparkPass(stars[k := s], k + 1, len)
  }

  /** One frame of the sparkle stars, as written: it equals the sweep
      over the star list. */
  function SparkFrame(stars: seq<Star>): (r: seq<Star>)
    ensures r == Sweep(stars)
  {
    SparkPassIsSweep([], stars, |stars|);
    assert [] + stars == stars;
    assert [] + Sweep(stars) == Sweep(stars);
    SparkPass(stars, 0, |stars|)
  }

  /** The same pass described over the original list: each visited star is
      updated and dropped if expired, and the star right after a dropped
      one is passed over, neither updated nor tested. */
  function Sweep(u: seq<Star>): (r: seq<Star>)
    ensures |r| <= |u|
  {
    if |u| == 0 then []
    else
      var s := StarStep(u[0]);
      if Expired(s) then (if |u| == 1 then [] else [u[1]] + Sweep(u[2..]))
      else [s] + Sweep(u[1..])
  }

  /** The index-based pass from position |q| over `q + u` keeps `q` and
      sweeps `u`. */
  lemma {:induction false} SparkPassIsSweep(q: seq<Star>, u: seq<Star>, len: nat)
    requires |q| + |u| <= len
    ensures SparkPass(q + u, |q|, len) == q + Sweep(u)
    decreases len - |q|
  {
    if |u| == 0 {
      assert q + u == q;
      SparkPassBeyond(q, |q|, len);
    } else {
      var s := StarStep(u[0]);
      if Expired(s) {
        SparkPassRemoves(q, u, len);
        if |u| == 1 {
          assert q + u[1..] == q;
          SparkPassBeyond(q, |q| + 1, len);
        } else {
          SweepRegroup(q, u);
          SparkPassIsSweep(q + [u[1]], u[2..], len);
        }
      } else {
        SparkPassUpdates(q, u, len);
        SparkPassIsSweep(q + [s], u[1..], len);
        assert (q + [s]) + Sweep(u[1..]) == q + ([s] + Sweep(u[1..]));
      }
    }
  }

  /** Visiting an expiring star at index |q| removes it. */
  lemma SparkPassRemoves(q: seq<Star>, u: seq<Star>, len: nat)
    requires |q| + |u| <= len && |u| > 0 && Expired(StarStep(u[0]))
    ensures SparkPass(q + u, |q|, len) == SparkPass(q + u[1..], |q| + 1, len)
  {
    var a := q + u;
    assert a[|q|] == u[0];
    assert a[..|q|] == q;
    assert a[|q| + 1..] == u[1..];
  }

  /** Visiting a live star at index |q| updates it in place. */
  lemma SparkPassUpdates(q: seq<Star>, u: seq<Star>, len: nat)
    requires |q| + |u| <= len && |u| > 0 && !Expired(StarStep(u[0]))
    ensures SparkPass(q + u, |q|, len) == SparkPass((q + [StarStep(u[0])]) + u[1..], |q| + 1, len)
  {
    var a := q + u;
    assert a[|q|] == u[0];
    assert a[|q| := StarStep(u[0])] == (q + [StarStep(u[0])]) + u[1..];
  }

  /** After a removal the next star is passed over: it joins the kept
      prefix unchanged. */
  lemma SweepRegroup(q: seq<Star>, u: seq<Star>)
    requires |u| > 1
    ensures q + u[1..] == (q + [u[1]]) + u[2..]
    ensures q + ([u[1]] + Sweep(u[2..])) == (q + [u[1]]) + Sweep(u[2..])
  {
    assert u[1..] == [u[1]] + u[2..];
  }

  /** Visits past the end of the array change nothing. */
  lemma {:induction false} SparkPassBeyond(a: seq<Star>, k: nat, len: nat)
    requires |a| <= k
    ensures SparkPass(a, k, len) == a
    decreases len - k
  {
    if k < len {
      SparkPassBeyond(a, k + 1, len);
    }
  }

  /** Every star a frame leaves is an input star, either updated or passed
      over, so lifespans and positions are carried through unchanged. */
  lemma {:induction false} SweepProvenance(u: seq<Star>)
    ensures forall t :: t in Sweep(u) ==> exists i :: 0 <= i < |u| && (t == u[i] || t == StarStep(u[i]))
  {
    if |u| > 0 {
      var s := StarStep(u[0]);
      if Expired(s) {
        if |u| > 1 {
          SweepProvenance(u[2..]);
          forall t | t in Sweep(u)
            ensures exists i :: 0 <= i < |u| && (t == u[i] || t == StarStep(u[i]))
          {
            if t == u[1] {
            } else {
              assert t in Sweep(u[2..]);
              var i :| 0 <= i < |u[2..]| && (t == u[2..][i] || t == StarStep(u[2..][i]));
              assert u[2..][i] == u[i + 2];
            }
          }
        }
      } else {
        SweepProvenance(u[1..]);
        forall t | t in Sweep(u)
          ensures exists i :: 0 <= i < |u| && (t == u[i] || t == StarStep(u[i]))
        {
          if t == s {
          } else {
            assert t in Sweep(u[1..]);
            var i :| 0 <= i < |u[1..]| && (t == u[1..][i] || t == StarStep(u[1..][i]));
            assert u[1..][i] == u[i + 1];
          }
        }
      }
    }
  }

  /** A star list in which no star has outlived its lifespan. */
  predicate AllLive(u: seq<Star>)
  {
    forall i :: 0 <= i < |u| ==> !Expired(u[i])
  }

  /** The frame never leaves a star whose life exceeds its lifespan, as
      long as none did before: updated stars that expire are removed and
      passed-over stars were not updated. */
  lemma {:induction false} SweepKeepsLive(u: seq<Star>)
    requires AllLive(u)
    ensures AllLive(Sweep(u))
  {
    if |u| > 0 {
      var s := StarStep(u[0]);
      if Expired(s) {
        if |u| > 1 {
          SweepKeepsLive(u[2..]);
          assert !Expired(u[1]);
        }
      } else {
        SweepKeepsLive(u[1..]);
      }
    }
  }

  /** When no star expires this frame, every star is updated once and none
      is removed. */
  lemma {:induction false} SweepWithoutExpiry(u: seq<Star>)
    requires forall i :: 0 <= i < |u| ==> !Expired(StarStep(u[i]))
    ensures |Sweep(u)| == |u|
    ensures forall i :: 0 <= i < |u| ==> Sweep(u)[i] == StarStep(u[i])
  {
    if |u| > 0 {
      SweepWithoutExpiry(u[1..]);
    }
  }

  /** The pass-over in general: when the first star expires, the frame
      keeps the second one exactly as it was, neither updated nor tested,
      and handles the stars after it as a frame of their own. */
  lemma SparkFramePassesOver(u: seq<Star>)
    requires |u| >= 2 && Expired(StarStep(u[0]))
    ensures SparkFrame(u) == [u[1]] + SparkFrame(u[2..])
    ensures SparkFrame(u)[0] == u[1]
  {
  }

  /** An instance: of two stars expiring in the same frame, only the first
      is removed, and the second survives the frame without being
      updated. */
  lemma SparkFrameSkipsNeighbour()
    ensures SparkFrame([Star(0.0, 0.0, 1.0, 40, 40.0, 0.0), Star(5.0, 5.0, 1.0, 40, 40.0, 0.0)])
            == [Star(5.0, 5.0, 1.0, 40, 40.0, 0.0)]
  {
    var a := Star(0.0, 0.0, 1.0, 40, 40.0, 0.0);
    var b := Star(5.0, 5.0, 1.0, 40, 40.0, 0.0);
    SparkFramePassesOver([a, b]);
    assert [a, b][2..] == [];
  }
}
