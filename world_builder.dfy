/** `World::WorldBuilder`: the only way to register component types. The
    builder owns a world, registers the user's types one by one and finally
    registers `Entity` after all of them. */
module WorldBuilders {
  import opened Errors
  import opened Values
  import opened Registries
  import opened Worlds

  /** No tag occurs twice. */
  predicate Distinct(ts: seq<TypeTag>) {
    forall i, j :: 0 <= i < j < |ts| ==> ts[i] != ts[j]
  }

  /** The contents of a fresh world after `register_component` for each of
      `ts` in order: the first repeated tag fails with `AlreadyRegistered`. */
  function RegisterAll(ts: seq<TypeTag>): (r: Result<Store>)
    ensures r.Ok? ==> r.value.Valid()
    decreases |ts|
  {
    if ts == [] then Ok(Store(map[], []))
    else
      var init, t := ts[..|ts| - 1], ts[|ts| - 1];
      match RegisterAll(init)
      case Err(e) => Err(e)
      case Ok(s) => if s.HasComponent(t) then Err(AlreadyRegistered) else Ok(s.Register(t))
  }

  /** Registering `ts` in order succeeds exactly when no tag repeats; then
      the `i`-th tag gets column index `i`, every column is empty and no
      other tag is known. */
  lemma {:induction false} RegisterAllExact(ts: seq<TypeTag>)
    ensures RegisterAll(ts).Ok? <==> Distinct(ts)
    ensures RegisterAll(ts).Err? ==> RegisterAll(ts).error == AlreadyRegistered
    ensures RegisterAll(ts).Ok? ==>
      var s := RegisterAll(ts).value;
      && |s.columns| == |ts|
      && (forall t :: t in s.lookup <==> t in ts)
      && (forall i :: 0 <= i < |ts| ==> s.lookup[ts[i]] == i && s.columns[i] == NewColumn(ts[i]))
    decreases |ts|
  {
    if ts != [] {
      var init, t := ts[..|ts| - 1], ts[|ts| - 1];
      assert ts == init + [t];
      RegisterAllExact(init);
      DistinctSnoc(init, t);
      if RegisterAll(init).Ok? {
        var s := RegisterAll(init).value;
        if t !in s.lookup {
          RegisterAllAppend(init, t, s);
          Extend(s.lookup, s.columns, init, t);
        }
      }
    }
  }

  /** A tag sequence with one tag more is distinct exactly when the shorter
      one is and the new tag is not in it. */
  lemma DistinctSnoc(init: seq<TypeTag>, t: TypeTag)
    ensures Distinct(init + [t]) <==> Distinct(init) && t !in init
  {
    var ts := init + [t];
    assert forall i :: 0 <= i < |init| ==> ts[i] == init[i];
    if t in init {
      var i :| 0 <= i < |init| && init[i] == t;
      assert ts[i] == ts[|init|];
    }
  }

  /** One registration more on a world built from distinct tags. */
  lemma RegisterAllAppend(init: seq<TypeTag>, t: TypeTag, s: Store)
    requires RegisterAll(init) == Ok(s) && t !in s.lookup
    ensures RegisterAll(init + [t]) == Ok(s.Register(t))
  {
    assert (init + [t])[..|init|] == init;
  }

  /** The map and columns after appending `t` to the tags `init`. */
  lemma Extend(lookup: map<nat, nat>, columns: seq<Column>, init: seq<TypeTag>, t: TypeTag)
    requires t !in lookup && |columns| == |init|
    requires forall u :: u in lookup <==> u in init
    requires forall i :: 0 <= i < |init| ==> lookup[init[i]] == i && columns[i] == NewColumn(init[i])
    ensures var ts, lookup', columns' := init + [t], lookup[t := |init|], columns + [NewColumn(t)];
      && (forall u :: u in lookup' <==> u in ts)
      && (forall i :: 0 <= i < |ts| ==> lookup'[ts[i]] == i && columns'[i] == NewColumn(ts[i]))
  {
    var ts := init + [t];
    forall i | 0 <= i < |ts|
      ensures lookup[t := |init|][ts[i]] == i
    {
      if i < |init| {
        assert ts[i] == init[i];
      }
    }
  }

  /** What `create()`, then `with_component` for each of `ts`, then `build`
      leaves: it fails when a tag repeats or `Entity` is among `ts`;
      otherwise `Entity` gets the column index just after the user types,
      and the empty `Entity` column satisfies the entity bookkeeping. */
  lemma BuiltWorld(ts: seq<TypeTag>)
    ensures RegisterAll(ts + [ENTITY]).Ok? <==> Distinct(ts) && ENTITY !in ts
    ensures RegisterAll(ts + [ENTITY]).Ok? ==>
      var s := RegisterAll(ts + [ENTITY]).value;
      && s.GetCid(ENTITY) == Ok(|ts|)
      && s.CountComponents() == |ts| + 1
      && s.Entities() == []
      && s.Bookkept()
  {
    var all := ts + [ENTITY];
    RegisterAllExact(all);
    DistinctSnoc(ts, ENTITY);
    if RegisterAll(all).Ok? {
      var s := RegisterAll(all).value;
      assert all[|ts|] == ENTITY;
      assert s.columns[|ts|] == NewColumn(ENTITY);
    }
  }

  /** The builder owns the world being built; `types` are the tags it has
      registered so far, in order. */
  class WorldBuilder {
    const world: World
    ghost var types: seq<TypeTag>

    ghost predicate Valid()
      reads this, world, world.nodes
    {
      world.Valid() && RegisterAll(types) == Ok(world.View())
    }

    /** `World::create()`: a builder around a world with no columns. */
    constructor Create()
      ensures Valid() && fresh(world) && types == [] && world.systems == []
    {
      world := new World();
      types := [];
    }

    /** `with_component<T>`: register `t` in the owned world. A repeated
        type fails with `AlreadyRegistered` and changes nothing. */
    method WithComponent(t: TypeTag) returns (r: Outcome)
      requires Valid()
      modifies this`types, world`lookup, world`nodes
      ensures Valid()
      ensures r.Fail? <==> t in old(types)
      ensures r.Fail? ==> r.error == AlreadyRegistered && types == old(types) && world.View() == old(world.View())
      ensures r.Pass? ==> types == old(types) + [t] && world.View() == old(world.View()).Register(t)
    {
      RegisterAllExact(types);
      var o := world.RegisterComponent(t);
      if o.Pass? {
        assert (types + [t])[..|types|] == types;
        types := types + [t];
      }
      r := o;
    }

    /** `with_component<T>` for each of `ts` in order, stopping at the
        first failure. */
    method WithEach(ts: seq<TypeTag>) returns (r: Outcome)
      requires Valid() && types == []
      modifies this`types, world`lookup, world`nodes
      ensures Valid()
      ensures r.Fail? <==> !Distinct(ts)
      ensures r.Fail? ==> r.error == AlreadyRegistered
      ensures r.Pass? ==> types == ts
    {
      var i := 0;
      while i < |ts|
        invariant i <= |ts| && Valid() && types == ts[..i] && Distinct(ts[..i])
      {
        DistinctSnoc(ts[..i], ts[i]);
        assert ts[..i + 1] == ts[..i] + [ts[i]];
        var o := WithComponent(ts[i]);
        if o.Fail? {
          NotDistinct(ts, i + 1);
          return o;
        }
        i := i + 1;
      }
      assert ts[..i] == ts;
      r := Pass;
    }

    /** `build`: register `Entity` last and hand the world over. */
    method Build() returns (r: Result<World>)
      requires Valid()
      modifies this`types, world`lookup, world`nodes
      ensures Valid()
      ensures r.Err? <==> ENTITY in old(types)
      ensures r.Err? ==> r.error == AlreadyRegistered && world.View() == old(world.View())
      ensures r.Ok? ==>
        && r.value == world && types == old(types) + [ENTITY]
        && world.View().GetCid(ENTITY) == Ok(|old(types)|)
        && world.View().Bookkept()
    {
      var o := WithComponent(ENTITY);
      if o.Fail? {
        return Err(o.error);
      }
      BuiltWorld(old(types));
      RegisterAllExact(old(types));
      r := Ok(world);
    }
  }

  /** `World::create().with_component<T1>()...with_component<Tn>().build()`:
      the first repeated registration aborts the chain. */
  method CreateWorld(ts: seq<TypeTag>) returns (r: Result<World>)
    ensures r.Ok? <==> Distinct(ts) && ENTITY !in ts
    ensures r.Err? ==> r.error == AlreadyRegistered
    ensures r.Ok? ==> r.value.Valid() && RegisterAll(ts + [ENTITY]) == Ok(r.value.View())
    ensures r.Ok? ==> fresh(r.value) && r.value.systems == []
  {
    var wb := new WorldBuilder.Create();
    var w := wb.world;
    var o := wb.WithEach(ts);
    if o.Fail? {
      return Err(o.error);
    }
    assert w.systems == [];
    r := wb.Build();
    assert w.systems == [];
  }

  /** A prefix with a repeated tag makes the whole sequence repeat one. */
  lemma NotDistinct(ts: seq<TypeTag>, k: nat)
    requires k <= |ts| && !Distinct(ts[..k])
    ensures !Distinct(ts)
  {
    var i, j :| 0 <= i < j < k && ts[..k][i] == ts[..k][j];
    assert ts[i] == ts[j];
  }
}
