/** The test program's movement system over `(Position, Velocity)` tuples:
    move by the velocity, then slow each velocity component down by the
    system's friction, stopping at zero. */
module Movement {
  import opened Values
  import opened Worlds

  function Abs(n: int): nat {
    if n < 0 then -n else n
  }

  /** One axis of the friction rule: subtract `f` from a velocity at or
      above `f`, add it to one at or below `-f`, and stop anything in
      between. */
  function Friction(d: int, f: int): (r: int)
    ensures d >= f ==> r == d - f
    ensures d < f && d <= -f ==> r == d + f
    ensures d < f && d > -f ==> r == 0
  {
    if d >= f then d - f
    else if d <= -f then d + f
    else 0
  }

  /** With a non-negative friction a velocity component never changes
      sign, and its magnitude drops by `f` or to zero. */
  lemma FrictionSlows(d: int, f: int)
    requires f >= 0
    ensures d >= 0 ==> Friction(d, f) >= 0
    ensures d <= 0 ==> Friction(d, f) <= 0
    ensures Abs(Friction(d, f)) <= Abs(d)
    ensures Abs(Friction(d, f)) == if Abs(d) >= f then Abs(d) - f else 0
  {
  }

  /** `n` applications of the friction rule to one axis. */
  function Slowed(d: int, f: int, n: nat): (r: int)
    ensures f >= 0 ==> Abs(r) <= Abs(d)
    decreases n
  {
    if n == 0 then d
    else
      var r := Slowed(Friction(d, f), f, n - 1);
      if f >= 0 then FrictionSlows(d, f); r else r
  }

  /** With a positive friction, `|d|` steps bring any velocity to rest. */
  lemma {:induction false} ComesToRest(d: int, f: int, n: nat)
    requires f > 0 && n >= Abs(d)
    ensures Slowed(d, f, n) == 0
    decreases n
  {
    if d != 0 {
      FrictionSlows(d, f);
      ComesToRest(Friction(d, f), f, n - 1);
    } else {
      StaysAtRest(f, n);
    }
  }

  /** A velocity at rest stays at rest under a non-negative friction. */
  lemma {:induction false} StaysAtRest(f: int, n: nat)
    requires f >= 0
    ensures Slowed(0, f, n) == 0
    decreases n
  {
    if n > 0 {
      assert Friction(0, f) == 0;
      StaysAtRest(f, n - 1);
    }
  }

  /** `MovementSystem(fx, fy)`. */
  datatype MovementSystem = MovementSystem(fx: int, fy: int)
  {
    /** `run` on one tuple: the position moves by the velocity it had before
        the update, then each velocity axis gets the friction rule. A tuple
        of any other shape comes back unchanged. */
    function Run(vs: seq<Value>): (out: seq<Value>)
      ensures SameTypes(vs, out)
      ensures |vs| == 2 && vs[0].Position? && vs[1].Velocity? ==>
        && out[0] == Position(vs[0].x + vs[1].dx, vs[0].y + vs[1].dy)
        && out[1] == Velocity(Friction(vs[1].dx, fx), Friction(vs[1].dy, fy))
    {
      if |vs| == 2 && vs[0].Position? && vs[1].Velocity? then
        var pos, vel := vs[0], vs[1];
        [Position(pos.x + vel.dx, pos.y + vel.dy), Velocity(Friction(vel.dx, fx), Friction(vel.dy, fy))]
      else vs
    }

    /** The system as the world runs it: it fetches `(Position, Velocity)`. */
    function AsSystem(): (sys: System)
      ensures sys.types == [POSITION, VELOCITY]
      ensures sys.WellTyped()
    {
      System([POSITION, VELOCITY], Run)
    }
  }

  /** `pos` and `vel` point at a position and a velocity of a consistent store. */
  ghost predicate Movable(s: Store, pos: Ref, vel: Ref)
  {
    && s.Valid() && s.RefValid(pos) && s.RefValid(vel)
    && s.columns[pos.cid].tag == POSITION && s.columns[vel.cid].tag == VELOCITY
  }

  /** `run` as the test program writes it: both updates go through the
      tuple's pointers, the position first, then the velocity. */
  method RunAt(sys: MovementSystem, w: World, pos: Ref, vel: Ref)
    requires w.Valid() && Movable(w.View(), pos, vel)
    modifies w.nodes[pos.cid], w.nodes[vel.cid]
    ensures w.Valid() && unchanged(w) && old(w.View()).Addressable([pos, vel])
    ensures w.View() == old(w.View()).RunTuple([pos, vel], sys.AsSystem())
  {
    ghost var s0 := w.View();
    RunAtTypes(s0, pos, vel);
    var p := w.View().Deref(pos);
    var v := w.View().Deref(vel);
    assert p == s0.Deref(pos) && v == s0.Deref(vel);
    var dx, dy := v.dx, v.dy;
    if dx >= sys.fx {
      dx := dx - sys.fx;
    } else if dx <= -sys.fx {
      dx := dx + sys.fx;
    } else {
      dx := 0;
    }
    if dy >= sys.fy {
      dy := dy - sys.fy;
    } else if dy <= -sys.fy {
      dy := dy + sys.fy;
    } else {
      dy := 0;
    }
    var p', v' := Position(p.x + v.dx, p.y + v.dy), Velocity(dx, dy);
    RunAtSpec(s0, sys, pos, vel, p', v');
    w.WriteRef(pos, p');
    ghost var s1 := w.View();
    assert s1 == s0.Write(pos, p');
    w.WriteRef(vel, v');
    assert w.View() == s1.Write(vel, v');
  }

  /** The pointers of a `(Position, Velocity)` tuple reach a position and a velocity. */
  lemma RunAtTypes(s: Store, pos: Ref, vel: Ref)
    requires Movable(s, pos, vel)
    ensures s.Deref(pos).Position? && s.Deref(vel).Velocity? && s.Addressable([pos, vel])
  {
    var refs := [pos, vel];
    assert s.RefValid(refs[0]) && s.RefValid(refs[1]);
    assert s.columns[pos.cid].Typed() && s.columns[vel.cid].Typed();
  }

  /** The world's `run` on a `(Position, Velocity)` tuple is the write of
      the moved position followed by the write of the slowed velocity. */
  lemma RunAtSpec(s: Store, sys: MovementSystem, pos: Ref, vel: Ref, p': Value, v': Value)
    requires Movable(s, pos, vel)
    requires s.Deref(pos).Position? && s.Deref(vel).Velocity?
    requires p' == Position(s.Deref(pos).x + s.Deref(vel).dx, s.Deref(pos).y + s.Deref(vel).dy)
    requires v' == Velocity(Friction(s.Deref(vel).dx, sys.fx), Friction(s.Deref(vel).dy, sys.fy))
    ensures s.Addressable([pos, vel]) && s.columns[pos.cid].tag == TypeOf(p')
    ensures s.Write(pos, p').RefValid(vel) && s.Write(pos, p').columns[vel.cid].tag == TypeOf(v')
    ensures s.RunTuple([pos, vel], sys.AsSystem()) == s.Write(pos, p').Write(vel, v')
  {
    RunAtTypes(s, pos, vel);
    var refs := [pos, vel];
    var p, v := s.Deref(pos), s.Deref(vel);
    assert s.Read(refs) == [p, v];
    assert sys.Run([p, v]) == [p', v'];
    WritePair(s, pos, vel, p', v');
  }

  /** Writing through two pointers in turn. */
  lemma WritePair(s: Store, a: Ref, b: Ref, x: Value, y: Value)
    requires s.Valid() && s.RefValid(a) && s.RefValid(b)
    requires TypeOf(x) == s.columns[a.cid].tag && TypeOf(y) == s.columns[b.cid].tag
    ensures s.Write(a, x).RefValid(b) && s.Write(a, x).columns[b.cid].tag == TypeOf(y)
    ensures s.WriteAll([a, b], [x, y]) == s.Write(a, x).Write(b, y)
  {
    KeepsShape(s, s.Write(a, x), b);
    assert [a, b][..1] == [a] && [x, y][..1] == [x];
    assert [a][..0] == [] && [x][..0] == [];
    assert s.WriteAll([a], [x]) == s.Write(a, x);
  }
}
