/** The toy nucleon simulation of nucleon_simulation.py: protons and
    neutrons in a 200 by 200 box, pushed by a proton-proton repulsion and a
    short-range "strong force", speed-capped and bounced off the walls.

    The numbers are Dafny `real`s.  `math.sqrt` and `math.exp` are not
    computed: they come in as `RealOps`, and the properties that need them
    assume only what `Lawful` says about them.  The random start velocities
    are a parameter of the initial layout. */
module Simulation {
  import opened Frame

  // -----------------------------------------------------------------------
  // Constants (nucleon_simulation.py:9, 21-33)

  const Width: real := 200.0
  const Height: real := 200.0
  const StrongForceRadius: real := 30.0
  const ElectrostaticConstant: real := 80.0
  const ElectrostaticRadius: real := 50.0
  const StrongForceConstant: real := 10.0
  const MaxVelocity: real := 5.0
  const SpringDampening: real := 0.2
  /** The floor `max(..., 1e-5)` puts under a distance. */
  const MinDistance: real := 0.00001
  const NumProtons: nat := 12
  const NumNeutrons: nat := 6

  /** `math.sqrt` and `math.exp`. */
  datatype RealOps = RealOps(sqrt: real -> real, exp: real -> real)

  /** The two facts the properties rely on: the square root of a
      non-negative number is its non-negative root, and `exp` is positive. */
  ghost predicate Lawful(ops: RealOps) {
    (forall x: real :: SqrtAtPoint(ops, x)) && (forall x: real :: ExpAtPoint(ops, x))
  }

  /** `math.sqrt(x)`. */
  function Root(ops: RealOps, x: real): real {
    ops.sqrt(x)
  }

  /** `math.exp(x)`. */
  function Exp(ops: RealOps, x: real): real {
    ops.exp(x)
  }

  predicate SqrtAtPoint(ops: RealOps, x: real) {
    0.0 <= x ==> 0.0 <= Root(ops, x) && Root(ops, x) * Root(ops, x) == x
  }

  predicate ExpAtPoint(ops: RealOps, x: real) {
    0.0 < Exp(ops, x)
  }

  datatype Kind = Neutron | Proton

  /** A `Nucleon` object: its kind (`nucleon`, equal to `charge`), position,
      velocity and last neighbour count.  The colour follows from the kind. */
  datatype Nucleon = Nucleon(kind: Kind, x: real, y: real, vx: real, vy: real, neighbors: nat)

  // -----------------------------------------------------------------------
  // Speed cap and motion

  /** `enforce_max_velocity`: a speed above the cap is scaled down to it
      (a factor of 1 leaves the velocity as it is). */
  function Cap(ops: RealOps, n: Nucleon): (r: Nucleon)
    ensures r.(vx := n.vx, vy := n.vy) == n
  {
    var scale := CapScale(ops, n);
    n.(vx := n.vx * scale, vy := n.vy * scale)
  }

  /** `MAX_VELOCITY / speed` when the speed is above the cap. */
  function CapScale(ops: RealOps, n: Nucleon): real {
    var speed := Speed(ops, n);
    if speed > MaxVelocity then MaxVelocity / speed else 1.0
  }

  /** What `Lawful` says at one point. */
  lemma SqrtAt(ops: RealOps, q: real)
    requires Lawful(ops) && 0.0 <= q
    ensures 0.0 <= Root(ops, q) && Root(ops, q) * Root(ops, q) == q
  {
    assert SqrtAtPoint(ops, q);
  }

  /** `dx**2 + dy**2`. */
  function SquaredLength(dx: real, dy: real): real {
    dx * dx + dy * dy
  }

  /** `ux * wx + uy * wy`: how far `(ux, uy)` points along `(wx, wy)`. */
  function Dot(ux: real, uy: real, wx: real, wy: real): real {
    ux * wx + uy * wy
  }

  lemma SquareSign(x: real)
    ensures x * x >= 0.0 && (x != 0.0 ==> x * x > 0.0)
  {
    if x < 0.0 {
      assert x * x == (-x) * (-x);
    }
  }

  /** A squared length is non-negative, and zero only for `(0, 0)`. */
  lemma SquaredLengthSign(dx: real, dy: real)
    ensures 0.0 <= SquaredLength(dx, dy)
    ensures dx != 0.0 || dy != 0.0 ==> 0.0 < SquaredLength(dx, dy)
  {
    SquareSign(dx);
    SquareSign(dy);
    calc {
      SquaredLength(dx, dy);
    ==
      dx * dx + dy * dy;
    >=
      0.0;
    }
    if dx != 0.0 || dy != 0.0 {
      calc {
        SquaredLength(dx, dy);
      ==
        dx * dx + dy * dy;
      >
        0.0;
      }
    }
  }

  /** Squaring is strictly increasing on the non-negative reals. */
  lemma SquareBelow(a: real, b: real)
    requires 0.0 <= a < b
    ensures a * a < b * b
  {
    var d := b - a;
    assert b * b == a * a + d * (a + b);
    assert d * (a + b) > 0.0;
  }

  /** A non-negative root `s` of `q` compares with a positive `m` as `q`
      compares with `m * m`. */
  lemma RootOrder(s: real, q: real, m: real)
    requires 0.0 <= s && s * s == q && 0.0 < m
    ensures s <= m <==> q <= m * m
    ensures s < m <==> q < m * m
  {
    if s < m {
      SquareBelow(s, m);
    } else if m < s {
      SquareBelow(m, s);
    }
  }

  /** Non-negative numbers with the same square are equal. */
  lemma RootUnique(s: real, t: real)
    requires 0.0 <= s && 0.0 <= t && s * s == t * t
    ensures s == t
  {
    if s < t {
      SquareBelow(s, t);
    } else if t < s {
      SquareBelow(t, s);
    }
  }

  /** The current speed, `math.sqrt(velX**2 + velY**2)`. */
  function Speed(ops: RealOps, n: Nucleon): real {
    Root(ops, SquaredLength(n.vx, n.vy))
  }

  /** The speed is the non-negative root of the squared velocity. */
  lemma SpeedSquared(ops: RealOps, n: Nucleon)
    requires Lawful(ops)
    ensures 0.0 <= Speed(ops, n) && Speed(ops, n) * Speed(ops, n) == SquaredLength(n.vx, n.vy)
  {
    SquaredLengthSign(n.vx, n.vy);
    SqrtAt(ops, SquaredLength(n.vx, n.vy));
  }

  /** A speed is at most 5 exactly when the squared velocity is at most 25. */
  lemma SpeedAtMostCap(ops: RealOps, n: Nucleon)
    requires Lawful(ops)
    ensures Speed(ops, n) <= MaxVelocity <==> SquaredLength(n.vx, n.vy) <= MaxVelocity * MaxVelocity
  {
    SpeedSquared(ops, n);
    RootOrder(Speed(ops, n), SquaredLength(n.vx, n.vy), MaxVelocity);
  }

  /** The cap scales the velocity by a factor in (0, 1], so its direction
      is kept. */
  lemma CapDirection(ops: RealOps, n: Nucleon)
    ensures 0.0 < CapScale(ops, n) <= 1.0
    ensures Cap(ops, n).vx == n.vx * CapScale(ops, n) && Cap(ops, n).vy == n.vy * CapScale(ops, n)
  {
  }

  /** A speed already within the cap leaves the velocity alone. */
  lemma CapKeepsSlow(ops: RealOps, n: Nucleon)
    requires Speed(ops, n) <= MaxVelocity
    ensures Cap(ops, n) == n
  {
  }

  lemma CapScaleFast(ops: RealOps, n: Nucleon)
    requires Speed(ops, n) > MaxVelocity
    ensures Cap(ops, n).vx == n.vx * (MaxVelocity / Speed(ops, n))
    ensures Cap(ops, n).vy == n.vy * (MaxVelocity / Speed(ops, n))
  {
  }

  /** A speed above the cap comes out exactly at the cap. */
  lemma CapFast(ops: RealOps, n: Nucleon)
    requires Lawful(ops)
    requires Speed(ops, n) > MaxVelocity
    ensures Speed(ops, Cap(ops, n)) == MaxVelocity
  {
    var c := Cap(ops, n);
    CapScaleFast(ops, n);
    SpeedSquared(ops, n);
    var s := Speed(ops, n);
    var k := MaxVelocity / s;
    assert k * s == MaxVelocity;
    ScaledLength(n.vx, n.vy, k, s, MaxVelocity, c.vx, c.vy);
    SpeedSquared(ops, c);
    RootOrder(Speed(ops, c), SquaredLength(c.vx, c.vy), MaxVelocity);
  }

  /** After the cap the speed is at most `MAX_VELOCITY`. */
  lemma CapBounds(ops: RealOps, n: Nucleon)
    requires Lawful(ops)
    ensures Speed(ops, Cap(ops, n)) <= MaxVelocity
  {
    if Speed(ops, n) > MaxVelocity {
      CapFast(ops, n);
    } else {
      CapKeepsSlow(ops, n);
    }
  }

  /** Scaling `(vx, vy)`, of length `s`, by `k` gives `(wx, wy)`, of length
      `r = k * s`. */
  lemma ScaledLength(vx: real, vy: real, k: real, s: real, r: real, wx: real, wy: real)
    requires s * s == SquaredLength(vx, vy) && k * s == r
    requires wx == vx * k && wy == vy * k
    ensures SquaredLength(wx, wy) == r * r
  {
    calc {
      SquaredLength(wx, wy);
      == (vx * k) * (vx * k) + (vy * k) * (vy * k);
      == k * k * (vx * vx + vy * vy);
      == k * k * (s * s);
      == (k * s) * (k * s);
      == r * r;
    }
  }

  /** Reflect one velocity component when its coordinate has left
      `[0, bound]`. */
  function Bounce(pos: real, v: real, bound: real): real {
    if pos < 0.0 || pos > bound then -v else v
  }

  /** `move`: cap the speed, step by the capped velocity, and reverse a
      component whose coordinate is now outside the box.  The position is
      not pulled back inside. */
  function Move(ops: RealOps, n: Nucleon): (r: Nucleon)
    ensures var c := Cap(ops, n);
      && r.x == n.x + c.vx && r.y == n.y + c.vy
      && (r.vx == -c.vx <==> (r.x < 0.0 || r.x > Width) || c.vx == 0.0)
      && (r.vx == c.vx || r.vx == -c.vx)
      && (r.vy == -c.vy <==> (r.y < 0.0 || r.y > Height) || c.vy == 0.0)
      && (r.vy == c.vy || r.vy == -c.vy)
      && r.kind == n.kind && r.neighbors == n.neighbors
  {
    var c := Cap(ops, n);
    var x := c.x + c.vx;
    var y := c.y + c.vy;
    c.(x := x, y := y, vx := Bounce(x, c.vx, Width), vy := Bounce(y, c.vy, Height))
  }

  /** A bounce only flips signs, so after a move the speed is still within
      the cap. */
  lemma MoveWithinCap(ops: RealOps, n: Nucleon)
    requires Lawful(ops)
    ensures Speed(ops, Move(ops, n)) <= MaxVelocity
  {
    CapBounds(ops, n);
    SpeedOfFlipped(ops, Move(ops, n), Cap(ops, n));
  }

  /** Flipping the signs of the components keeps the speed. */
  lemma SpeedOfFlipped(ops: RealOps, a: Nucleon, b: Nucleon)
    requires Lawful(ops)
    requires a.vx == b.vx || a.vx == -b.vx
    requires a.vy == b.vy || a.vy == -b.vy
    ensures Speed(ops, a) == Speed(ops, b)
  {
    FlippedLength(a.vx, a.vy, b.vx, b.vy);
    SpeedSquared(ops, a);
    SpeedSquared(ops, b);
    RootUnique(Speed(ops, a), Speed(ops, b));
  }

  lemma FlippedLength(px: real, py: real, qx: real, qy: real)
    requires px == qx || px == -qx
    requires py == qy || py == -qy
    ensures SquaredLength(px, py) == SquaredLength(qx, qy)
  {
    FlipSquare(px, qx);
    FlipSquare(py, qy);
  }

  lemma FlipSquare(a: real, b: real)
    requires a == b || a == -b
    ensures a * a == b * b
  {
    if a == -b {
      assert a * a == (-b) * (-b) == b * b;
    }
  }

  /** The position is not clamped: a nucleon near the right wall moving
      right ends up outside the box. */
  lemma MoveCanLeaveBox(ops: RealOps)
    requires Lawful(ops)
    ensures var m := Move(ops, Nucleon(Proton, 199.0, 100.0, 3.0, 0.0, 0));
      m.x == 202.0 && m.x > Width && m.vx == -3.0
  {
    var n := Nucleon(Proton, 199.0, 100.0, 3.0, 0.0, 0);
    SpeedAtMostCap(ops, n);
    CapKeepsSlow(ops, n);
  }

  // -----------------------------------------------------------------------
  // Pair forces

  /** `max(math.sqrt(dx**2 + dy**2), 1e-5)`, with `dx`, `dy` pointing from
      `a` to `b`. */
  function Distance(ops: RealOps, a: Nucleon, b: Nucleon): (d: real)
    ensures d >= MinDistance
  {
    var s := RawDistance(ops, a, b);
    if s > MinDistance then s else MinDistance
  }

  /** The unclamped distance `calculate_neighbors` uses. */
  function RawDistance(ops: RealOps, a: Nucleon, b: Nucleon): real {
    Root(ops, SquaredLength(b.x - a.x, b.y - a.y))
  }

  /** Equal and opposite velocity changes: `a` gains `(fx, fy)`, `b` loses
      it; nothing else changes. */
  function Push(a: Nucleon, b: Nucleon, fx: real, fy: real): (r: (Nucleon, Nucleon))
    ensures r.0.vx + r.1.vx == a.vx + b.vx && r.0.vy + r.1.vy == a.vy + b.vy
    ensures r.0.vx - a.vx == fx && r.0.vy - a.vy == fy
    ensures r.0.(vx := a.vx, vy := a.vy) == a && r.1.(vx := b.vx, vy := b.vy) == b
  {
    (a.(vx := a.vx + fx, vy := a.vy + fy), b.(vx := b.vx - fx, vy := b.vy - fy))
  }

  /** `fx, fy` of `repulsion`: the inverse-square force between two
      protons closer than `ELECTROSTATIC_RADIUS`, `(0, 0)` otherwise. */
  function RepulsionImpulse(ops: RealOps, a: Nucleon, b: Nucleon): (real, real) {
    if a.kind == Proton && b.kind == Proton then
      var dx := b.x - a.x;
      var dy := b.y - a.y;
      var d := Distance(ops, a, b);
      if d < ElectrostaticRadius then
        var force := ElectrostaticConstant / (d * d);
        (force * (dx / d), force * (dy / d))
      else (0.0, 0.0)
    else (0.0, 0.0)
  }

  /** `repulsion`: `a` loses what `b` gains. */
  function Repulsion(ops: RealOps, a: Nucleon, b: Nucleon): (r: (Nucleon, Nucleon))
    ensures !(a.kind == Proton && b.kind == Proton && Distance(ops, a, b) < ElectrostaticRadius) ==> r == (a, b)
    ensures r.0.vx + r.1.vx == a.vx + b.vx && r.0.vy + r.1.vy == a.vy + b.vy
    ensures r.0.(vx := a.vx, vy := a.vy) == a && r.1.(vx := b.vx, vy := b.vy) == b
  {
    var f := RepulsionImpulse(ops, a, b);
    if a.kind == Proton && b.kind == Proton && Distance(ops, a, b) < ElectrostaticRadius
    then Push(a, b, -f.0, -f.1)
    else (a, b)
  }

  /** `k * (dx / d)` has the sign of `k * dx` for a positive `d`: the
      impulse along `(dx, dy)` is `k / d` times the squared length. */
  lemma AlongDirection(k: real, d: real, dx: real, dy: real)
    requires d > 0.0
    ensures Dot(k * (dx / d), k * (dy / d), dx, dy) == (k / d) * SquaredLength(dx, dy)
  {
    assert k * (dx / d) == (k / d) * dx;
    assert k * (dy / d) == (k / d) * dy;
  }

  /** The sign of a product with a non-negative factor. */
  lemma ProductSign(p: real, q: real)
    requires 0.0 <= q
    ensures p <= 0.0 ==> p * q <= 0.0
    ensures 0.0 <= p ==> 0.0 <= p * q
    ensures p < 0.0 && 0.0 < q ==> p * q < 0.0
  {
  }

  /** Between two protons the impulse on `a` points away from `b`, and it
      is not zero when they are closer than `ELECTROSTATIC_RADIUS` at
      distinct places. */
  lemma RepulsionImpulseDirection(ops: RealOps, a: Nucleon, b: Nucleon)
    ensures var f := RepulsionImpulse(ops, a, b);
      var dx, dy := b.x - a.x, b.y - a.y;
      && 0.0 <= Dot(f.0, f.1, dx, dy)
      && ((a.kind == Proton && b.kind == Proton && Distance(ops, a, b) < ElectrostaticRadius
           && (dx != 0.0 || dy != 0.0)) ==> 0.0 < Dot(f.0, f.1, dx, dy))
  {
    var dx, dy := b.x - a.x, b.y - a.y;
    var d := Distance(ops, a, b);
    if a.kind == Proton && b.kind == Proton && d < ElectrostaticRadius {
      InverseSquareAlong(d, dx, dy);
    }
  }

  /** The inverse-square impulse at distance `d` points along `(dx, dy)`. */
  lemma InverseSquareAlong(d: real, dx: real, dy: real)
    requires d >= MinDistance
    ensures var force := ElectrostaticConstant / (d * d);
      var along := Dot(force * (dx / d), force * (dy / d), dx, dy);
      0.0 <= along && (dx != 0.0 || dy != 0.0 ==> 0.0 < along)
  {
    var force := ElectrostaticConstant / (d * d);
    assert force > 0.0;
    AlongDirection(force, d, dx, dy);
    SquaredLengthSign(dx, dy);
    ProductSign(force / d, SquaredLength(dx, dy));
  }

  /** Repulsion pushes `a` away from `b`: its velocity change points
      against `(dx, dy)`; between close protons at distinct places both
      velocities change. */
  lemma RepulsionPushesApart(ops: RealOps, a: Nucleon, b: Nucleon)
    ensures var r := Repulsion(ops, a, b);
      && Dot(r.0.vx - a.vx, r.0.vy - a.vy, b.x - a.x, b.y - a.y) <= 0.0
      && ((a.kind == Proton && b.kind == Proton && Distance(ops, a, b) < ElectrostaticRadius
           && (a.x, a.y) != (b.x, b.y)) ==> r.0 != a && r.1 != b)
  {
    var f := RepulsionImpulse(ops, a, b);
    RepulsionImpulseDirection(ops, a, b);
    var r := Repulsion(ops, a, b);
    var dx, dy := b.x - a.x, b.y - a.y;
    if a.kind == Proton && b.kind == Proton && Distance(ops, a, b) < ElectrostaticRadius {
      DotNegated(f.0, f.1, dx, dy);
    } else {
      assert Dot(0.0, 0.0, dx, dy) == 0.0;
    }
  }

  lemma DotNegated(fx: real, fy: real, dx: real, dy: real)
    ensures Dot(-fx, -fy, dx, dy) == -Dot(fx, fy, dx, dy)
  {
  }

  /** The strong force's magnitude at distance `d`: repulsive (negative)
      below 10, attractive from 10 to 20, zero beyond. */
  function StrongMagnitude(ops: RealOps, d: real): real {
    if d < 10.0 then StrongForceConstant * Exp(ops, -d / 2.0) * -1.0
    else if d < 20.0 then StrongForceConstant * Exp(ops, -d / 2.0)
    else 0.0
  }

  lemma StrongMagnitudeSign(ops: RealOps, d: real)
    requires Lawful(ops)
    ensures d < 10.0 ==> StrongMagnitude(ops, d) < 0.0
    ensures 10.0 <= d < 20.0 ==> StrongMagnitude(ops, d) > 0.0
    ensures 20.0 <= d ==> StrongMagnitude(ops, d) == 0.0
  {
    assert ExpAtPoint(ops, -d / 2.0);
  }

  /** The first half of `strong_force`: the impulse alone. */
  function StrongImpulse(ops: RealOps, a: Nucleon, b: Nucleon): (r: (Nucleon, Nucleon)) {
    var d := Distance(ops, a, b);
    var force := StrongMagnitude(ops, d);
    Push(a, b, force * ((b.x - a.x) / d), force * ((b.y - a.y) / d))
  }

  /** The second half: damping along `(dx, dy)` in proportion to the size
      of the relative velocity after the impulse. */
  function Damping(ops: RealOps, a: Nucleon, b: Nucleon, d: real, dx: real, dy: real): (Nucleon, Nucleon)
    requires d >= MinDistance
  {
    var k := SpringDampening * RelativeSpeed(ops, a, b);
    Push(a, b, k * (dx / d), k * (dy / d))
  }

  /** `rel_vel_magnitude`. */
  function RelativeSpeed(ops: RealOps, a: Nucleon, b: Nucleon): real {
    Root(ops, SquaredLength(b.vx - a.vx, b.vy - a.vy))
  }

  lemma RelativeSpeedSign(ops: RealOps, a: Nucleon, b: Nucleon)
    requires Lawful(ops)
    ensures 0.0 <= RelativeSpeed(ops, a, b)
  {
    SquaredLengthSign(b.vx - a.vx, b.vy - a.vy);
    SqrtAt(ops, SquaredLength(b.vx - a.vx, b.vy - a.vy));
  }

  /** `strong_force`: within `STRONG_FORCE_RADIUS` the impulse and then the
      damping, both equal and opposite; beyond it nothing. */
  function StrongForce(ops: RealOps, a: Nucleon, b: Nucleon): (r: (Nucleon, Nucleon))
    ensures Distance(ops, a, b) >= StrongForceRadius ==> r == (a, b)
    ensures r.0.vx + r.1.vx == a.vx + b.vx && r.0.vy + r.1.vy == a.vy + b.vy
    ensures r.0.(vx := a.vx, vy := a.vy) == a && r.1.(vx := b.vx, vy := b.vy) == b
  {
    var d := Distance(ops, a, b);
    if d < StrongForceRadius then
      var p := StrongImpulse(ops, a, b);
      Damping(ops, p.0, p.1, d, b.x - a.x, b.y - a.y)
    else (a, b)
  }

  /** The impulse pushes `a` away from `b` below distance 10, pulls it
      towards `b` from 10 to 20, and is absent from 20 on. */
  lemma StrongImpulseDirection(ops: RealOps, a: Nucleon, b: Nucleon)
    requires Lawful(ops)
    ensures var d := Distance(ops, a, b);
      var p := StrongImpulse(ops, a, b);
      var along := Dot(p.0.vx - a.vx, p.0.vy - a.vy, b.x - a.x, b.y - a.y);
      && (d < 10.0 ==> along <= 0.0)
      && (10.0 <= d < 20.0 ==> along >= 0.0)
      && (20.0 <= d ==> p == (a, b))
  {
    var d := Distance(ops, a, b);
    var dx, dy := b.x - a.x, b.y - a.y;
    var force := StrongMagnitude(ops, d);
    StrongMagnitudeSign(ops, d);
    AlongDirection(force, d, dx, dy);
    SquaredLengthSign(dx, dy);
    if d < 10.0 {
      ProductSign(force / d, SquaredLength(dx, dy));
    } else if d < 20.0 {
      ProductSign(force / d, SquaredLength(dx, dy));
    }
  }

  /** Between 20 and 30 the impulse is zero but the damping still acts: it
      draws `a` towards `b`. */
  lemma DampingInOuterBand(ops: RealOps, a: Nucleon, b: Nucleon)
    requires Lawful(ops)
    requires 20.0 <= Distance(ops, a, b) < StrongForceRadius
    ensures var d := Distance(ops, a, b);
      var r := StrongForce(ops, a, b);
      && r == Damping(ops, a, b, d, b.x - a.x, b.y - a.y)
      && Dot(r.0.vx - a.vx, r.0.vy - a.vy, b.x - a.x, b.y - a.y) >= 0.0
  {
    var d := Distance(ops, a, b);
    var dx, dy := b.x - a.x, b.y - a.y;
    StrongImpulseDirection(ops, a, b);
    RelativeSpeedSign(ops, a, b);
    var k := SpringDampening * RelativeSpeed(ops, a, b);
    AlongDirection(k, d, dx, dy);
    SquaredLengthSign(dx, dy);
    ProductSign(k / d, SquaredLength(dx, dy));
  }

  // -----------------------------------------------------------------------
  // Neighbours

  predicate Near(ops: RealOps, a: Nucleon, b: Nucleon) {
    RawDistance(ops, a, b) < StrongForceRadius
  }

  /** The other nucleons among the first `k` that are near nucleon `i`. */
  function CountNear(ops: RealOps, ns: seq<Nucleon>, i: nat, k: nat): (r: nat)
    requires i < |ns| && k <= |ns|
    ensures r <= k - (if i < k then 1 else 0)
  {
    if k == 0 then 0
    else CountNear(ops, ns, i, k - 1) + (if k - 1 != i && Near(ops, ns[i], ns[k - 1]) then 1 else 0)
  }

  /** `calculate_neighbors`: between 0 and `n - 1`. */
  function Neighbors(ops: RealOps, ns: seq<Nucleon>, i: nat): (r: nat)
    requires i < |ns|
    ensures r <= |ns| - 1
  {
    CountNear(ops, ns, i, |ns|)
  }

  function NearOthers(ops: RealOps, ns: seq<Nucleon>, i: nat, k: nat): set<nat>
    requires i < |ns| && k <= |ns|
  {
    set j: nat | j < k && j != i && Near(ops, ns[i], ns[j])
  }

  /** The count is the number of other nucleons near `i`. */
  lemma {:induction false} CountNearIsSize(ops: RealOps, ns: seq<Nucleon>, i: nat, k: nat)
    requires i < |ns| && k <= |ns|
    ensures CountNear(ops, ns, i, k) == |NearOthers(ops, ns, i, k)|
  {
    if k > 0 {
      CountNearIsSize(ops, ns, i, k - 1);
      NearOthersStep(ops, ns, i, k);
    }
  }

  /** Looking at one more nucleon adds it to the near set, or nothing. */
  lemma NearOthersStep(ops: RealOps, ns: seq<Nucleon>, i: nat, k: nat)
    requires i < |ns| && 0 < k <= |ns|
    ensures |NearOthers(ops, ns, i, k)|
      == |NearOthers(ops, ns, i, k - 1)| + (if k - 1 != i && Near(ops, ns[i], ns[k - 1]) then 1 else 0)
  {
    var before := NearOthers(ops, ns, i, k - 1);
    if k - 1 != i && Near(ops, ns[i], ns[k - 1]) {
      NearOthersGrow(ops, ns, i, k);
      AddFresh(before, k - 1);
    } else {
      NearOthersSame(ops, ns, i, k);
    }
  }

  lemma NearOthersGrow(ops: RealOps, ns: seq<Nucleon>, i: nat, k: nat)
    requires i < |ns| && 0 < k <= |ns|
    requires k - 1 != i && Near(ops, ns[i], ns[k - 1])
    ensures NearOthers(ops, ns, i, k) == NearOthers(ops, ns, i, k - 1) + {k - 1}
    ensures k - 1 !in NearOthers(ops, ns, i, k - 1)
  {
  }

  lemma NearOthersSame(ops: RealOps, ns: seq<Nucleon>, i: nat, k: nat)
    requires i < |ns| && 0 < k <= |ns|
    requires !(k - 1 != i && Near(ops, ns[i], ns[k - 1]))
    ensures NearOthers(ops, ns, i, k) == NearOthers(ops, ns, i, k - 1)
  {
  }

  lemma AddFresh(s: set<nat>, x: nat)
    requires x !in s
    ensures |s + {x}| == |s| + 1
  {
  }

  /** `neighbors` counts exactly the other nucleons within
      `STRONG_FORCE_RADIUS`, never the nucleon itself. */
  lemma NeighborsExactly(ops: RealOps, ns: seq<Nucleon>, i: nat)
    requires i < |ns|
    ensures Neighbors(ops, ns, i) == |NearOthers(ops, ns, i, |ns|)|
  {
    CountNearIsSize(ops, ns, i, |ns|);
  }

  // -----------------------------------------------------------------------
  // One frame

  /** One pair: repulsion, then the strong force on the updated velocities. */
  function Interaction(ops: RealOps, ns: seq<Nucleon>, i: nat, j: nat): (r: seq<Nucleon>)
    requires i < |ns| && j < |ns| && i != j
    ensures |r| == |ns| && Kinds(r) == Kinds(ns)
  {
    var p := Repulsion(ops, ns[i], ns[j]);
    var q := StrongForce(ops, p.0, p.1);
    ns[i := q.0][j := q.1]
  }

  /** One event of a frame. An event naming a nucleon that is not there
      changes nothing; the frame's schedule holds none (`Frame.ScheduleOnce`). */
  function Apply(ops: RealOps, ns: seq<Nucleon>, e: Event): (r: seq<Nucleon>)
    ensures |r| == |ns| && Kinds(r) == Kinds(ns)
  {
    if !InRange(e, |ns|) then ns
    else match e
      case CountNeighbors(i) => ns[i := ns[i].(neighbors := Neighbors(ops, ns, i))]
      case Interact(i, j) => if i == j then ns else Interaction(ops, ns, i, j)
      case Step(i) => ns[i := Move(ops, ns[i])]
  }

  function Stepper(ops: RealOps): (seq<Nucleon>, Event) -> seq<Nucleon> {
    (ns: seq<Nucleon>, e: Event) => Apply(ops, ns, e)
  }

  /** One frame of the main loop: the nested loops over the nucleons. */
  function Tick(ops: RealOps, ns: seq<Nucleon>): seq<Nucleon> {
    OuterLoop(Stepper(ops), ns, |ns|, 0)
  }

  /** The nested loops of one frame carry out exactly the schedule. */
  lemma TickFollowsSchedule(ops: RealOps, ns: seq<Nucleon>)
    ensures Tick(ops, ns) == Run(Stepper(ops), ns, Schedule(|ns|))
  {
    LoopsFollowSchedule(Stepper(ops), ns, |ns|);
  }

  lemma {:induction false} RunKeepsKinds(ops: RealOps, ns: seq<Nucleon>, es: seq<Event>)
    ensures Kinds(Run(Stepper(ops), ns, es)) == Kinds(ns)
    decreases |es|
  {
    if es != [] {
      var next := Stepper(ops)(ns, es[0]);
      assert next == Apply(ops, ns, es[0]);
      RunKeepsKinds(ops, next, es[1..]);
    }
  }

  /** A frame keeps the number of nucleons and every nucleon's kind. */
  lemma TickKeepsKinds(ops: RealOps, ns: seq<Nucleon>)
    ensures |Tick(ops, ns)| == |ns|
    ensures Kinds(Tick(ops, ns)) == Kinds(ns)
  {
    TickFollowsSchedule(ops, ns);
    RunKeepsKinds(ops, ns, Schedule(|ns|));
  }

  /** The nucleons after `t` frames. */
  function Frames(ops: RealOps, ns: seq<Nucleon>, t: nat): seq<Nucleon> {
    if t == 0 then ns else Tick(ops, Frames(ops, ns, t - 1))
  }

  // -----------------------------------------------------------------------
  // Start and composition

  /** Grid position of the `i`-th proton, or of the `i`-th neutron:
      five to a row, 40 apart, starting at 20. */
  function GridX(i: nat): real { ((i % 5) * (200 / 5) + 200 / 10) as real }
  function GridY(i: nat): real { ((i / 5) * (200 / 5) + 200 / 10) as real }

  /** The start: twelve protons on the grid, then six neutrons on the same
      grid, each with its own random start velocity. */
  function Initial(velocities: seq<(real, real)>): (ns: seq<Nucleon>)
    requires |velocities| == NumProtons + NumNeutrons
    ensures |ns| == NumProtons + NumNeutrons
  {
    seq(NumProtons + NumNeutrons, k requires 0 <= k < NumProtons + NumNeutrons =>
      if k < NumProtons
      then Nucleon(Proton, GridX(k), GridY(k), velocities[k].0, velocities[k].1, 0)
      else Nucleon(Neutron, GridX(k - NumProtons), GridY(k - NumProtons), velocities[k].0, velocities[k].1, 0))
  }

  function Kinds(ns: seq<Nucleon>): (ks: seq<Kind>)
    ensures |ks| == |ns|
  {
    seq(|ns|, k requires 0 <= k < |ns| => ns[k].kind)
  }

  function CountKind(ks: seq<Kind>, kind: Kind): nat {
    if ks == [] then 0 else (if ks[0] == kind then 1 else 0) + CountKind(ks[1..], kind)
  }

  lemma {:induction false} CountKindConcat(a: seq<Kind>, b: seq<Kind>, kind: Kind)
    ensures CountKind(a + b, kind) == CountKind(a, kind) + CountKind(b, kind)
    decreases |a|
  {
    if a == [] {
      assert a + b == b;
    } else {
      assert (a + b)[1..] == a[1..] + b;
      CountKindConcat(a[1..], b, kind);
    }
  }

  lemma {:induction false} CountKindSame(ks: seq<Kind>, kind: Kind)
    requires forall k :: 0 <= k < |ks| ==> ks[k] == kind
    ensures CountKind(ks, kind) == |ks|
    ensures forall other :: other != kind ==> CountKind(ks, other) == 0
    decreases |ks|
  {
    if ks != [] {
      CountKindSame(ks[1..], kind);
    }
  }

  /** The start has twelve protons and six neutrons, inside the box; each
      neutron sits exactly on the proton with the same index. */
  lemma InitialLayout(velocities: seq<(real, real)>)
    requires |velocities| == NumProtons + NumNeutrons
    ensures var ns := Initial(velocities);
      && CountKind(Kinds(ns), Proton) == NumProtons
      && CountKind(Kinds(ns), Neutron) == NumNeutrons
      && (forall k :: 0 <= k < |ns| ==> 0.0 < ns[k].x < Width && 0.0 < ns[k].y < Height)
      && (forall k :: 0 <= k < NumNeutrons ==>
            ns[NumProtons + k].x == ns[k].x && ns[NumProtons + k].y == ns[k].y)
  {
    InitialKinds(velocities);
    InitialInBox(velocities);
  }

  lemma InitialKinds(velocities: seq<(real, real)>)
    requires |velocities| == NumProtons + NumNeutrons
    ensures CountKind(Kinds(Initial(velocities)), Proton) == NumProtons
    ensures CountKind(Kinds(Initial(velocities)), Neutron) == NumNeutrons
  {
    var ks := Kinds(Initial(velocities));
    var protons, neutrons := ks[..NumProtons], ks[NumProtons..];
    assert ks == protons + neutrons;
    CountKindSame(protons, Proton);
    CountKindSame(neutrons, Neutron);
    CountKindConcat(protons, neutrons, Proton);
    CountKindConcat(protons, neutrons, Neutron);
  }

  lemma InitialInBox(velocities: seq<(real, real)>)
    requires |velocities| == NumProtons + NumNeutrons
    ensures var ns := Initial(velocities);
      && (forall k :: 0 <= k < |ns| ==> 0.0 < ns[k].x < Width && 0.0 < ns[k].y < Height)
      && (forall k :: 0 <= k < NumNeutrons ==>
            ns[NumProtons + k].x == ns[k].x && ns[NumProtons + k].y == ns[k].y)
  {
    forall k: nat | k < NumProtons
      ensures 0.0 < GridX(k) < Width && 0.0 < GridY(k) < Height
    {
      GridInBox(k);
    }
  }

  /** The first twelve grid places lie inside the box. */
  lemma GridInBox(i: nat)
    requires i < NumProtons
    ensures 0.0 < GridX(i) < Width && 0.0 < GridY(i) < Height
  {
    var col, row := i % 5, i / 5;
    assert i == row * 5 + col && col < 5;
    assert row < 3;
    assert 20 <= col * 40 + 20 < 200;
    assert 20 <= row * 40 + 20 < 200;
  }

  /** Nothing changes a nucleon's kind and nothing adds or removes one (the
      `decay` method is empty and never called), so after any number of
      frames there are still twelve protons and six neutrons. */
  lemma {:induction false} CompositionFixed(ops: RealOps, velocities: seq<(real, real)>, t: nat)
    requires |velocities| == NumProtons + NumNeutrons
    ensures Kinds(Frames(ops, Initial(velocities), t)) == Kinds(Initial(velocities))
    ensures CountKind(Kinds(Frames(ops, Initial(velocities), t)), Proton) == NumProtons
    ensures CountKind(Kinds(Frames(ops, Initial(velocities), t)), Neutron) == NumNeutrons
  {
    InitialLayout(velocities);
    FramesKeepKinds(ops, Initial(velocities), t);
  }

  lemma {:induction false} FramesKeepKinds(ops: RealOps, ns: seq<Nucleon>, t: nat)
    ensures Kinds(Frames(ops, ns, t)) == Kinds(ns)
  {
    if t > 0 {
      FramesKeepKinds(ops, ns, t - 1);
      TickKeepsKinds(ops, Frames(ops, ns, t - 1));
    }
  }
}
