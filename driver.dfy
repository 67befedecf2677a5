/** One iteration of the frame loop of `main`, as single steps: drawing a
    frame from cleared buffers, and advancing the angles and the moving
    cube's horizontal position with its bounce. */
module Driver {
  import opened Screen
  import opened Geometry
  import opened Raster
  import opened Output

  /** Bounds of the moving cube's horizontal position: `width / 2` and
      `-width / 2`, both exact in integer division. */
  const Limit: real := (Width / 2) as real
  const NegLimit: real := ((-Width) / 2) as real

  function Abs(v: real): real {
    if v < 0.0 then -v else v
  }

  /** Horizontal position and velocity of the moving cube. */
  datatype Motion = Motion(x: real, vx: real)

  predicate OutOfBounds(x: real) {
    x > Limit || x < NegLimit
  }

  /** The cube is never farther outside the bounds than one step, and when it
      is outside it is moving outward (so the next bounce turns it back). */
  predicate InCorridor(m: Motion) {
    && NegLimit - Abs(m.vx) <= m.x <= Limit + Abs(m.vx)
    && (m.x > Limit ==> m.vx > 0.0)
    && (m.x < NegLimit ==> m.vx < 0.0)
  }

  /** The bounce rule: flip the velocity when the position is outside the
      bounds, tested before the move, then move by the new velocity. */
  function Bounce(m: Motion): (r: Motion)
    ensures Abs(r.vx) == Abs(m.vx)
    ensures r.vx == m.vx || r.vx == -m.vx
    ensures m.vx != 0.0 ==> (r.vx == -m.vx <==> OutOfBounds(m.x))
    ensures r.x == m.x + r.vx
    ensures InCorridor(m) ==> InCorridor(r)
  {
    var vx := if m.x > Limit || m.x < NegLimit then m.vx * -1.0 else m.vx;
    Motion(m.x + vx, vx)
  }

  /** The loop-carried state of `main`: both cubes' angles, the moving
      cube's position and its horizontal velocity. */
  datatype Scene = Scene(angle: Vec3f, angle2: Vec3f, position2: Vec3f, vx: real)

  function MotionOf(s: Scene): Motion {
    Motion(s.position2.x, s.vx)
  }

  /** The state before the first frame. */
  function Initial(): (s: Scene)
    ensures InCorridor(MotionOf(s)) && !OutOfBounds(s.position2.x)
  {
    Scene(Vec3f(0.0, 0.0, 0.0, 0), Vec3f(1.0, 2.0, 3.0, 0),
          Vec3f(34.0, 0.0, 200.0, 0), 0.6)
  }

  /** The end of one iteration: advance both cubes' angles by their fixed
      increments and apply the bounce rule to the moving cube. */
  function Tick(s: Scene): (r: Scene)
    ensures MotionOf(r) == Bounce(MotionOf(s))
    ensures r.position2.y == s.position2.y && r.position2.z == s.position2.z
    ensures r.angle.x > s.angle.x && r.angle.y > s.angle.y && r.angle.z > s.angle.z
    ensures r.angle2.x > s.angle2.x && r.angle2.y > s.angle2.y && r.angle2.z > s.angle2.z
  {
    var a := Vec3f(s.angle.x + 0.01, s.angle.y + 0.02, s.angle.z + 0.05, s.angle.f);
    var a2 := Vec3f(s.angle2.x + 0.07, s.angle2.y + 0.02, s.angle2.z + 0.05, s.angle2.f);
    var m := Bounce(MotionOf(s));
    Scene(a, a2, Vec3f(m.x, s.position2.y, s.position2.z, s.position2.f), m.vx)
  }

  /** The state after `n` iterations of the frame loop. */
  function Run(n: nat): Scene {
    if n == 0 then Initial() else Tick(Run(n - 1))
  }

  /** However many frames have been drawn, the moving cube keeps its speed,
      its height and its depth, and stays within one step of the bounds. */
  lemma {:induction false} RunStaysInCorridor(n: nat)
    ensures InCorridor(MotionOf(Run(n)))
    ensures Abs(Run(n).vx) == 0.6
    ensures Run(n).position2.y == 0.0 && Run(n).position2.z == 200.0
    ensures NegLimit - 0.6 <= Run(n).position2.x <= Limit + 0.6
  {
    if n > 0 {
      RunStaysInCorridor(n - 1);
    }
  }

  /** Reset, the two `drawCube` passes (stationary cube first) and the
      serialisation of one frame, over already projected points. */
  method RenderFrame(buffer: array<char>, zbuffer: array<real>,
                     cube1: seq<ScreenPoint>, cube2: seq<ScreenPoint>)
    returns (text: string)
    requires buffer.Length == Cells && zbuffer.Length == Cells
    modifies buffer, zbuffer
    ensures Frame(buffer[..], zbuffer[..]) == Render(Cleared(), cube1 + cube2)
    ensures forall k :: 0 <= k < Cells ==>
      Resolves(cube1 + cube2, k, Sentinel, Background, zbuffer[k], buffer[k])
    ensures text == Emit(buffer[..], 0)
    ensures StripNewlines(text) == buffer[..]
  {
    Reset(buffer, zbuffer);
    DrawPoints(buffer, zbuffer, cube1);
    DrawPoints(buffer, zbuffer, cube2);
    RenderConcat(Cleared(), cube1, cube2);
    forall k | 0 <= k < Cells
      ensures Resolves(cube1 + cube2, k, Sentinel, Background, zbuffer[k], buffer[k])
    {
      RenderFromCleared(cube1 + cube2, k);
    }
    assert '\n' !in buffer[..] by {
      forall k | 0 <= k < Cells ensures buffer[..][k] != '\n' {
        PaletteHasNoNewline(buffer[k]);
      }
    }
    text := Draw(buffer);
  }
}
