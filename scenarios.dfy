/** The two populations of the test program's `main`, and the two ways a
    world builder rejects a type registered twice. */
module Scenarios {
  import opened Errors
  import opened Entities
  import opened Values
  import opened Registries
  import opened Worlds
  import opened WorldBuilders
  import opened EntityBuilders

  /** `with_component<Position>()` twice: the second registration fails. */
  method RegisterPositionTwice() returns (r: Outcome)
    ensures r == Fail(AlreadyRegistered)
  {
    var wb := new WorldBuilder.Create();
    var first := wb.WithComponent(POSITION);
    r := wb.WithComponent(POSITION);
  }

  /** `with_component<Entity>()` and then `build`: `build` registers `Entity`
      a second time and fails. */
  method RegisterEntityBeforeBuild() returns (r: Result<World>)
    ensures r == Err(AlreadyRegistered)
  {
    var wb := new WorldBuilder.Create();
    var first := wb.WithComponent(ENTITY);
    r := wb.Build();
  }

  /** The even indices below `n`, in order. */
  function Evens(n: nat): (idx: seq<nat>)
    ensures |idx| == (n + 1) / 2
    ensures forall j :: 0 <= j < |idx| ==> idx[j] == 2 * j
  {
    seq((n + 1) / 2, j => 2 * j)
  }

  /** When exactly the even-indexed entities cover the mask, the matching
      indices are the even ones. */
  lemma {:induction false} MatchingEvens(m: seq<bool>, ents: seq<Entity>)
    requires forall k :: 0 <= k < |ents| ==> (ents[k].HasComponents(m) <==> k % 2 == 0)
    ensures Matching(m, ents) == Evens(|ents|)
    decreases |ents|
  {
    if ents != [] {
      var n := |ents| - 1;
      var init := ents[..n];
      assert forall k :: 0 <= k < n ==> init[k] == ents[k];
      MatchingEvens(m, init);
      var prev := Matching(m, init);
      assert Matching(m, ents) == if ents[n].HasComponents(m) then prev + [n] else prev;
      EvensSnoc(n);
    }
  }

  /** One index more adds itself to the even indices exactly when it is even. */
  lemma EvensSnoc(n: nat)
    ensures Evens(n + 1) == if n % 2 == 0 then Evens(n) + [n] else Evens(n)
  {
    var a, b := Evens(n + 1), Evens(n);
    if n % 2 == 0 {
      assert |a| == |b| + 1;
      forall j | 0 <= j < |a| ensures a[j] == (b + [n])[j] {
        if j < |b| { assert a[j] == 2 * j == b[j]; }
      }
    } else {
      assert |a| == |b|;
    }
  }

  /** When every entity covers the mask, every index matches. */
  lemma {:induction false} MatchingAll(m: seq<bool>, ents: seq<Entity>)
    requires forall k :: 0 <= k < |ents| ==> ents[k].HasComponents(m)
    ensures Matching(m, ents) == seq(|ents|, k => k)
    decreases |ents|
  {
    if ents != [] {
      var n := |ents| - 1;
      var init := ents[..n];
      assert forall k :: 0 <= k < n ==> init[k] == ents[k];
      MatchingAll(m, init);
      assert seq(|ents|, k => k) == seq(n, k => k) + [n];
    }
  }

  /** Entity `k` of the first population: it owns `Position` (column 0,
      slot `k`), `Velocity` (column 1, slot `k / 2`) when `k` is even, and
      itself (column 2, slot `k`). */
  predicate Mover(e: Entity, k: nat) {
    && e.components == [true, k % 2 == 0, true]
    && e.slots == if k % 2 == 0 then map[0 := k, 1 := k / 2, 2 := k] else map[0 := k, 2 := k]
  }

  /** The world of the first population while entity `n` is being built:
      `p` positions and `q` velocities pushed so far. */
  ghost predicate Partial(s: Store, n: nat, p: nat, q: nat) {
    && s.Valid()
    && s.lookup == map[POSITION := 0, VELOCITY := 1, ENTITY := 2]
    && |s.columns| == 3
    && |s.columns[0].data| == p
    && |s.columns[1].data| == q
    && |s.Entities()| == n
    && forall k :: 0 <= k < n ==> Mover(s.Entities()[k], k)
  }

  /** The world of the first population after `n` entities. */
  ghost predicate Movers(s: Store, n: nat) {
    Partial(s, n, n, (n + 1) / 2)
  }

  /** Pushing a position or a velocity leaves the entities alone. */
  lemma PushPartial(s: Store, n: nat, p: nat, q: nat, cid: nat, v: Value)
    requires Partial(s, n, p, q) && cid < 2 && TypeOf(v) == s.columns[cid].tag
    ensures Partial(s.PushAt(cid, v), n, if cid == 0 then p + 1 else p, if cid == 1 then q + 1 else q)
  {
    var s' := s.PushAt(cid, v);
    assert s'.columns[2] == s.columns[2];
    assert s'.Entities() == s.Entities();
  }

  /** Appending entity `n`, built as a mover, completes the population of
      `n + 1` entities. */
  lemma AppendMover(s: Store, n: nat, e: Entity)
    requires Partial(s, n, n + 1, (n + 2) / 2) && Mover(e, n)
    ensures Movers(s.PushAt(2, Ent(e)), n + 1)
  {
    var s' := s.PushAt(2, Ent(e));
    assert s'.Entities() == s.Entities() + [e] by {
      PushEntities(s, e);
    }
  }

  /** The entity the first loop builds for index `i`, with its components
      but before `build`. */
  function Equipped(id: nat, i: nat): (e: Entity)
    ensures |e.components| == 3
  {
    var e1 := NewEntity(id, 3).AddComponent(0, i);
    if i % 2 == 0 then e1.AddComponent(1, i / 2) else e1
  }

  /** ... and after `build`. */
  lemma BuiltMover(id: nat, i: nat)
    ensures Mover(Equipped(id, i).AddComponent(2, i), i)
  {
    var e0 := NewEntity(id, 3);
    assert e0.components == [false, false, false] && e0.slots == map[];
  }

  /** The first population satisfies the entity bookkeeping. */
  lemma MoversBookkept(s: Store, n: nat)
    requires Movers(s, n)
    ensures s.Bookkept()
  {
    var es := s.Entities();
    forall k | 0 <= k < n
      ensures s.SlotsInRange(es[k]) && es[k].GetComponent(2) == Some(k)
    {
      assert Mover(es[k], k);
    }
  }

  /** `with<Position>` or `with<Velocity>` on a builder of the first
      population. */
  method WithMover(b: EntityBuilder, v: Value, n: nat, p: nat, q: nat)
    requires b.Valid() && Partial(b.world.View(), n, p, q) && (v.Position? || v.Velocity?)
    modifies b.world.nodes, b`entity, b`pushed
    ensures b.Valid() && b.world.nodes == old(b.world.nodes)
    ensures v.Position? ==> Partial(b.world.View(), n, p + 1, q) && b.entity == old(b.entity).AddComponent(0, p)
    ensures v.Velocity? ==> Partial(b.world.View(), n, p, q + 1) && b.entity == old(b.entity).AddComponent(1, q)
  {
    var cid := if v.Position? then 0 else 1;
    ghost var s0 := b.world.View();
    assert s0.lookup[TypeOf(v)] == cid && s0.HasComponent(TypeOf(v));
    PushPartial(s0, n, p, q, cid, v);
    var o := b.With(v);
  }

  /** The `with` calls of one pass of the first loop. */
  method EquipMover(b: EntityBuilder, i: nat, ghost id: nat)
    requires b.Valid() && Movers(b.world.View(), i) && b.entity == NewEntity(id, 3)
    modifies b.world.nodes, b`entity, b`pushed
    ensures b.Valid() && b.world.nodes == old(b.world.nodes)
    ensures Partial(b.world.View(), i, i + 1, (i + 2) / 2) && b.entity == Equipped(id, i)
  {
    var q := (i + 1) / 2;
    WithMover(b, Position(i, i), i, i, q);
    if i % 2 == 0 {
      assert q == i / 2 && (i + 2) / 2 == q + 1;
      WithMover(b, Velocity(i, i), i, i + 1, q);
    } else {
      assert (i + 2) / 2 == q;
    }
  }

  /** The `build` call of one pass of the first loop. */
  method BuildMover(b: EntityBuilder, i: nat, ghost id: nat)
    requires b.Valid() && Partial(b.world.View(), i, i + 1, (i + 2) / 2) && b.entity == Equipped(id, i)
    modifies b.world.nodes, b`entity, b`pushed
    ensures b.Valid() && b.world.nodes == old(b.world.nodes)
    ensures Movers(b.world.View(), i + 1)
  {
    ghost var s := b.world.View();
    assert s.lookup[ENTITY] == 2 && s.HasComponent(ENTITY);
    var built := b.Build();
    BuiltMover(id, i);
    AppendMover(s, i, b.entity);
  }

  /** One pass of the first loop: `build_entity().with<Position>({i, i})`,
      `with<Velocity>({i, i})` for even `i`, then `build()`. */
  method AddMover(w: World, i: nat)
    requires w.Valid() && Movers(w.View(), i)
    modifies w`nextEid, w.nodes
    ensures w.Valid() && Movers(w.View(), i + 1) && w.nodes == old(w.nodes)
  {
    ghost var id := w.nextEid;
    var b := BuildEntity(w);
    EquipMover(b, i, id);
    BuildMover(b, i, id);
  }

  /** The tuples `fetch<Position, Velocity>` yields over the first
      population of `n` entities: entity `2j` with its position at slot `2j`
      and its velocity at slot `j`. */
  function MoverTuples(n: nat): (r: seq<seq<Ref>>)
    ensures |r| == (n + 1) / 2
  {
    seq((n + 1) / 2, j requires 0 <= j => [Ref(0, 2 * j), Ref(1, j)])
  }

  /** The mask of `(Position, Velocity)` in the first population. */
  lemma MoversMask(s: Store, n: nat)
    requires Movers(s, n)
    ensures s.Mask([POSITION, VELOCITY]) == Ok([true, true, false])
  {
    var m := s.Mask([POSITION, VELOCITY]).value;
    assert s.HasComponent(POSITION) && s.HasComponent(VELOCITY);
    assert s.columns[0].tag == POSITION && s.columns[1].tag == VELOCITY && s.columns[2].tag == ENTITY;
    assert |m| == s.CountComponents() == |s.columns| == 3;
    assert m[0] && m[1] && !m[2];
    assert m == [true, true, false];
  }

  /** In the first population exactly the even-indexed entities own both
      `Position` and `Velocity`. */
  lemma MoversMatching(s: Store, n: nat)
    requires Movers(s, n)
    ensures Matching([true, true, false], s.Entities()) == Evens(n)
  {
    var ents, m := s.Entities(), [true, true, false];
    forall k | 0 <= k < |ents| ensures ents[k].HasComponents(m) <==> k % 2 == 0 {
      var e := ents[k];
      assert Mover(e, k);
      assert e.HasComponents(m) <==> e.Owns(0) && e.Owns(1);
    }
    MatchingEvens(m, ents);
  }

  /** `fetch<Position, Velocity>` over the first population picks exactly
      the even-indexed entities. */
  lemma MoversFetch(s: Store, n: nat)
    requires Movers(s, n)
    ensures s.Fetch([POSITION, VELOCITY]) == Ok(MoverTuples(n))
  {
    var ts := [POSITION, VELOCITY];
    MoversBookkept(s, n);
    MoversMask(s, n);
    FetchFailsOnlyUnregistered(s, ts);
    FetchExact(s, ts);
    MoversMatching(s, n);
    var ents, r := s.Entities(), s.Fetch(ts).value;
    var idx := Matching([true, true, false], ents);
    assert |r| == |idx| == (n + 1) / 2;
    forall j | 0 <= j < |r| ensures r[j] == MoverTuples(n)[j] {
      assert idx[j] == 2 * j;
      assert |r[j]| == 2 && s.Get(ts[0], ents[2 * j]) == Ok(r[j][0]) && s.Get(ts[1], ents[2 * j]) == Ok(r[j][1]);
      MoverTuple(s, n, j, r[j]);
    }
    assert r == MoverTuples(n);
  }

  /** The tuple of the even-indexed entity `2j` of the first population. */
  lemma MoverTuple(s: Store, n: nat, j: nat, tu: seq<Ref>)
    requires Movers(s, n) && 2 * j < n
    requires |tu| == 2 && s.Get(POSITION, s.Entities()[2 * j]) == Ok(tu[0]) && s.Get(VELOCITY, s.Entities()[2 * j]) == Ok(tu[1])
    ensures tu == MoverTuples(n)[j]
  {
    var k := 2 * j;
    assert k % 2 == 0 && k / 2 == j;
    assert Mover(s.Entities()[k], k);
  }

  /** The world of the first population before its loop:
      `create().with_component<Position>().with_component<Velocity>().build()`. */
  method MoverWorld() returns (w: World)
    ensures w.Valid() && Movers(w.View(), 0)
  {
    var built := CreateWorld([POSITION, VELOCITY]);
    assert [POSITION, VELOCITY] + [ENTITY] == [POSITION, VELOCITY, ENTITY];
    w := built.value;
    MoversStart(w.View());
  }

  /** A fresh world with `Position`, `Velocity` and `Entity` registered in
      that order is the first population before any entity. */
  lemma MoversStart(s: Store)
    requires RegisterAll([POSITION, VELOCITY, ENTITY]) == Ok(s)
    ensures Movers(s, 0)
  {
    var s0 := Store(map[], []);
    assert [POSITION][..0] == [];
    var s1 := s0.Register(POSITION);
    assert RegisterAll([POSITION]) == Ok(s1);
    assert [POSITION, VELOCITY][..1] == [POSITION];
    var s2 := s1.Register(VELOCITY);
    assert RegisterAll([POSITION, VELOCITY]) == Ok(s2);
    assert [POSITION, VELOCITY, ENTITY][..2] == [POSITION, VELOCITY];
    assert s == s2.Register(ENTITY);
  }

  /** The first population as the test program builds it, and what
      `fetch<Position, Velocity>` then yields: five tuples, one per even
      entity. */
  method FirstPopulation(w: World) returns (r: Result<seq<seq<Ref>>>)
    requires w.Valid() && Movers(w.View(), 0)
    modifies w`nextEid, w.nodes
    ensures r == Ok(MoverTuples(10)) && |r.value| == 5
  {
    PopulateMovers(w, 10);
    r := w.Fetch([POSITION, VELOCITY]);
  }

  /** The first loop, `n` times, and what `fetch` then sees. */
  method PopulateMovers(w: World, n: nat)
    requires w.Valid() && Movers(w.View(), 0)
    modifies w`nextEid, w.nodes
    ensures w.Valid() && w.View().Fetch([POSITION, VELOCITY]) == Ok(MoverTuples(n))
  {
    for i := 0 to n
      invariant w.Valid() && Movers(w.View(), i) && w.nodes == old(w.nodes)
    {
      AddMover(w, i);
    }
    MoversFetch(w.View(), n);
  }

  /** Entity `k` of the second population: it owns only itself, at slot `k`
      of the `Entity` column. */
  predicate Bare(e: Entity, k: nat) {
    e.components == [true] && e.slots == map[0 := k]
  }

  /** The world of the second population after `n` entities: `Entity` is
      the only type. */
  ghost predicate Bares(s: Store, n: nat) {
    && s.Valid()
    && s.lookup == map[ENTITY := 0]
    && |s.columns| == 1
    && |s.Entities()| == n
    && forall k :: 0 <= k < n ==> Bare(s.Entities()[k], k)
  }

  /** A fresh world with only `Entity` registered is the second population
      before any entity. */
  lemma BaresStart(s: Store)
    requires RegisterAll([ENTITY]) == Ok(s)
    ensures Bares(s, 0)
  {
    RegisterAllExact([ENTITY]);
    assert s.lookup == map[ENTITY := 0];
  }

  /** Appending entity `n`, built with no components, completes the second
      population of `n + 1` entities. */
  lemma AppendBare(s: Store, n: nat, id: nat)
    requires Bares(s, n)
    ensures Bare(NewEntity(id, 1).AddComponent(0, n), n)
    ensures Bares(s.PushAt(0, Ent(NewEntity(id, 1).AddComponent(0, n))), n + 1)
  {
    var e0 := NewEntity(id, 1);
    assert e0.components == [false] && e0.slots == map[];
    var e := e0.AddComponent(0, n);
    var s' := s.PushAt(0, Ent(e));
    PushEntities(s, e);
    forall k | 0 <= k < n + 1 ensures Bare(s'.Entities()[k], k) {
      if k < n {
        assert s'.Entities()[k] == s.Entities()[k];
      }
    }
  }

  /** One pass of the second loop: `build_entity().build()`. */
  method AddBare(w: World, i: nat)
    requires w.Valid() && Bares(w.View(), i)
    modifies w`nextEid, w.nodes
    ensures w.Valid() && Bares(w.View(), i + 1) && w.nodes == old(w.nodes)
  {
    ghost var id := w.nextEid;
    var b := BuildEntity(w);
    ghost var s := w.View();
    assert s.lookup[ENTITY] == 0 && s.HasComponent(ENTITY) && s.CountComponents() == 1;
    var built := b.Build();
    AppendBare(s, i, id);
  }

  /** The tuples `fetch<Entity>` yields over the second population: every
      entity, in order. */
  function BareTuples(n: nat): (r: seq<seq<Ref>>)
    ensures |r| == n
  {
    seq(n, k requires 0 <= k => [Ref(0, k)])
  }

  /** The mask of `(Entity)` in the second population, and every entity
      covers it and keeps its bookkeeping. */
  lemma BaresCover(s: Store, n: nat)
    requires Bares(s, n)
    ensures s.Mask([ENTITY]) == Ok([true]) && s.Bookkept()
    ensures forall k :: 0 <= k < n ==> s.Entities()[k].HasComponents([true]) == true
  {
    var ents := s.Entities();
    assert s.HasComponent(ENTITY);
    var m := s.Mask([ENTITY]).value;
    assert |m| == s.CountComponents() == |s.columns| == 1 && s.columns[0].tag == ENTITY && m[0];
    assert m == [true];
    forall k | 0 <= k < n
      ensures s.SlotsInRange(ents[k]) && ents[k].GetComponent(0) == Some(k) && (ents[k].HasComponents(m) <==> ents[k].Owns(0))
    {
      assert Bare(ents[k], k);
    }
  }

  /** `fetch<Entity>` over the second population picks every entity. */
  lemma BaresFetch(s: Store, n: nat)
    requires Bares(s, n)
    ensures s.Fetch([ENTITY]) == Ok(BareTuples(n))
  {
    var ts := [ENTITY];
    var ents := s.Entities();
    BaresCover(s, n);
    FetchFailsOnlyUnregistered(s, ts);
    FetchExact(s, ts);
    MatchingAll([true], ents);
    var r := s.Fetch(ts).value;
    forall k | 0 <= k < n ensures r[k] == BareTuples(n)[k] {
      BareTuple(s, n, k, r[k]);
    }
    assert r == BareTuples(n);
  }

  /** The tuple of entity `k` of the second population. */
  lemma BareTuple(s: Store, n: nat, k: nat, tu: seq<Ref>)
    requires Bares(s, n) && k < n
    requires |tu| == 1 && s.Get(ENTITY, s.Entities()[k]) == Ok(tu[0])
    ensures tu == BareTuples(n)[k]
  {
    assert Bare(s.Entities()[k], k);
  }

  /** The world of the second population before its loop:
      `create().build()`. */
  method BareWorld() returns (w: World)
    ensures w.Valid() && Bares(w.View(), 0)
  {
    var none: seq<TypeTag> := [];
    var built := CreateWorld(none);
    assert none + [ENTITY] == [ENTITY];
    w := built.value;
    BaresStart(w.View());
  }

  /** The second population as the test program builds it, and what
      `fetch<Entity>` then yields: thirty tuples, one per entity. */
  method SecondPopulation(w: World) returns (r: Result<seq<seq<Ref>>>)
    requires w.Valid() && Bares(w.View(), 0)
    modifies w`nextEid, w.nodes
    ensures r == Ok(BareTuples(30)) && |r.value| == 30
  {
    PopulateBares(w, 30);
    r := w.Fetch([ENTITY]);
  }

  /** The second loop, `n` times, and what `fetch` then sees. */
  method PopulateBares(w: World, n: nat)
    requires w.Valid() && Bares(w.View(), 0)
    modifies w`nextEid, w.nodes
    ensures w.Valid() && w.View().Fetch([ENTITY]) == Ok(BareTuples(n))
  {
    for i := 0 to n
      invariant w.Valid() && Bares(w.View(), i) && w.nodes == old(w.nodes)
    {
      AddBare(w, i);
    }
    BaresFetch(w.View(), n);
  }

}
