/** `World::EntityBuilder`: draws an id, pushes each component into its
    column while recording the slot it went to, and finally appends the
    entity itself to the `Entity` column. */
module EntityBuilders {
  import opened Errors
  import opened Entities
  import opened Values
  import opened Registries
  import opened Worlds

  /** Appending to a column keeps every recorded slot in range. */
  lemma PushKeepsSlots(s: Store, cid: nat, v: Value, e: Entity)
    requires s.Valid() && cid < |s.columns| && TypeOf(v) == s.columns[cid].tag
    requires s.SlotsInRange(e)
    ensures s.PushAt(cid, v).SlotsInRange(e)
  {
  }

  /** Appending a component value that is not an entity leaves the entity
      bookkeeping intact. */
  lemma PushKeepsBookkept(s: Store, cid: nat, v: Value)
    requires s.Valid() && cid < |s.columns| && TypeOf(v) == s.columns[cid].tag && !v.Ent?
    requires s.Bookkept()
    ensures s.PushAt(cid, v).Bookkept()
  {
    var s' := s.PushAt(cid, v);
    if ENTITY in s.lookup {
      assert cid != s.lookup[ENTITY];
      assert s'.Entities() == s.Entities();
      forall k | 0 <= k < |s.Entities()|
        ensures s'.SlotsInRange(s.Entities()[k])
      {
        PushKeepsSlots(s, cid, v, s.Entities()[k]);
      }
    }
  }

  /** Appending an entity to the `Entity` column appends it to the
      entity list. */
  lemma PushEntities(s: Store, e: Entity)
    requires s.Valid() && ENTITY in s.lookup
    ensures s.PushAt(s.lookup[ENTITY], Ent(e)).Entities() == s.Entities() + [e]
  {
  }

  /** Appending an entity that records its own slot, and whose slots are
      in range afterwards, extends the bookkeeping by that entity. */
  lemma AddKeepsBookkept(s: Store, e: Entity)
    requires s.Valid() && ENTITY in s.lookup && s.Bookkept()
    requires s.PushAt(s.lookup[ENTITY], Ent(e)).SlotsInRange(e)
    requires e.GetComponent(s.lookup[ENTITY]) == Some(|s.Entities()|)
    ensures s.PushAt(s.lookup[ENTITY], Ent(e)).Entities() == s.Entities() + [e]
    ensures s.PushAt(s.lookup[ENTITY], Ent(e)).Bookkept()
  {
    var cid := s.lookup[ENTITY];
    var s' := s.PushAt(cid, Ent(e));
    PushEntities(s, e);
    forall k | 0 <= k < |s.Entities()|
      ensures s'.SlotsInRange(s.Entities()[k])
    {
      PushKeepsSlots(s, cid, Ent(e), s.Entities()[k]);
    }
  }

  /** A builder's state is consistent with the world's contents `s`: the
      entity has one bit per column and its slots are in range, and each
      recorded slot holds the value pushed for that component. */
  ghost predicate Ready(s: Store, e: Entity, pushed: map<nat, Value>) {
    && s.Valid()
    && s.SlotsInRange(e)
    && pushed.Keys == e.slots.Keys
    && forall c :: c in e.slots ==> s.columns[c].data[e.slots[c]] == pushed[c]
  }

  /** Recording the column size as the slot and then pushing keeps the
      builder consistent. */
  lemma PushKeepsReady(s: Store, e: Entity, pushed: map<nat, Value>, cid: nat, v: Value)
    requires Ready(s, e, pushed) && cid < |s.columns| && TypeOf(v) == s.columns[cid].tag
    ensures Ready(s.PushAt(cid, v), e.AddComponent(cid, |s.columns[cid].data|), pushed[cid := v])
  {
    var s', e' := s.PushAt(cid, v), e.AddComponent(cid, |s.columns[cid].data|);
    PushKeepsSlots(s, cid, v, e);
    assert s'.SlotsInRange(e');
  }

  /** In a consistent builder, `get` of an owned component's type yields
      the recorded slot, and that slot holds the value pushed for it. */
  lemma ReadyAddresses(s: Store, e: Entity, pushed: map<nat, Value>, cid: nat)
    requires Ready(s, e, pushed) && cid in e.slots
    ensures cid < |s.columns|
    ensures s.Get(s.columns[cid].tag, e) == Ok(Ref(cid, e.slots[cid]))
    ensures s.Deref(Ref(cid, e.slots[cid])) == pushed[cid]
  {
  }

  /** The builder for one entity of `world`; `pushed` is the value pushed
      for each component id the entity owns so far. */
  class EntityBuilder {
    var entity: Entity
    const world: World
    ghost var pushed: map<nat, Value>

    ghost predicate Valid()
      reads this, world, world.nodes
    {
      world.Valid() && Ready(world.View(), entity, pushed)
    }

    /** `EntityBuilder(World *)`: a fresh id from the world and one clear bit
        per registered type. */
    constructor (w: World)
      requires w.Valid()
      modifies w`nextEid
      ensures Valid() && world == w && pushed == map[]
      ensures entity == NewEntity(old(w.nextEid), w.View().CountComponents())
      ensures w.nextEid == old(w.nextEid) + 1 && w.View() == old(w.View())
    {
      var id := w.GetEid();
      entity := NewEntity(id, w.View().CountComponents());
      world := w;
      pushed := map[];
    }

    /** `with<T>(t)`: record the size of `T`'s column as the slot for `T`'s
        column index, then push `v` there. An unregistered type fails with
        `NotRegistered` before anything changes. */
    method With(v: Value) returns (r: Outcome)
      requires Valid()
      modifies world.nodes, this`entity, this`pushed
      ensures Valid() && world.nodes == old(world.nodes)
      ensures r.Fail? <==> !old(world.View().HasComponent(TypeOf(v)))
      ensures r.Fail? ==>
        && r.error == NotRegistered && world.View() == old(world.View())
        && entity == old(entity) && pushed == old(pushed)
      ensures r.Pass? ==>
        var cid := world.lookup[TypeOf(v)];
        var slot := |old(world.View()).columns[cid].data|;
        && world.View() == old(world.View()).PushAt(cid, v)
        && entity == old(entity).AddComponent(cid, slot)
        && pushed == old(pushed)[cid := v]
      ensures r.Pass? && !v.Ent? && old(world.View().Bookkept()) ==> world.View().Bookkept()
    {
      ghost var s0 := world.View();
      var t := TypeOf(v);
      var nr := world.Find(t);
      if nr.Err? {
        return Fail(nr.error);
      }
      var node := nr.value;
      var cid := world.View().GetCid(t).value;
      assert cid == world.lookup[t];
      var slot := node.View().Size(t).value;
      Push(cid, slot, v);
      if !v.Ent? && s0.Bookkept() {
        PushKeepsBookkept(s0, cid, v);
      }
      r := Pass;
    }

    /** The rest of `with<T>` once `T`'s column index `cid` and its size
        `slot` are known: record the slot, then push. */
    method Push(cid: nat, slot: nat, v: Value)
      requires Valid() && cid < |world.nodes| && TypeOf(v) == world.View().columns[cid].tag
      requires slot == |world.View().columns[cid].data|
      modifies world.nodes, this`entity, this`pushed
      ensures Valid()
      ensures world.View() == old(world.View()).PushAt(cid, v)
      ensures entity == old(entity).AddComponent(cid, slot) && pushed == old(pushed)[cid := v]
    {
      PushKeepsReady(world.View(), entity, pushed, cid, v);
      world.PushAt(cid, v);
      Record(cid, slot, v);
    }

    /** `entity.add_component(cid, slot)`, remembering `v` as the value
        that goes to that slot. */
    method Record(cid: nat, slot: nat, v: Value)
      requires world.Valid() && cid < |entity.components|
      modifies this`entity, this`pushed
      ensures world.Valid() && world.View() == old(world.View())
      ensures entity == old(entity).AddComponent(cid, slot) && pushed == old(pushed)[cid := v]
    {
      entity, pushed := entity.AddComponent(cid, slot), pushed[cid := v];
    }

    /** `build`: record the size of the `Entity` column as the entity's own
        slot, then append the entity to that column. */
    method Build() returns (r: Outcome)
      requires Valid()
      modifies world.nodes, this`entity, this`pushed
      ensures Valid() && world.nodes == old(world.nodes)
      ensures r.Fail? <==> !old(world.View().HasComponent(ENTITY))
      ensures r.Fail? ==>
        && r.error == NotRegistered && world.View() == old(world.View())
        && entity == old(entity) && pushed == old(pushed)
      ensures r.Pass? ==>
        var cid := world.lookup[ENTITY];
        var slot := |old(world.View()).Entities()|;
        && entity == old(entity).AddComponent(cid, slot)
        && world.View() == old(world.View()).PushAt(cid, Ent(entity))
        && world.View().Entities() == old(world.View().Entities()) + [entity]
        && pushed == old(pushed)[cid := Ent(entity)]
      ensures r.Pass? && old(world.View().Bookkept()) ==> world.View().Bookkept()
    {
      var nr := world.Find(ENTITY);
      if nr.Err? {
        return Fail(nr.error);
      }
      var node := nr.value;
      var cid := world.View().GetCid(ENTITY).value;
      assert cid == world.lookup[ENTITY];
      var slot := node.View().Size(ENTITY).value;
      ghost var s0 := world.View();
      Append(cid, slot);
      PushEntities(s0, entity);
      if s0.Bookkept() {
        AddKeepsBookkept(s0, entity);
      }
      r := Pass;
    }

    /** The rest of `build` once the `Entity` column index `cid` and its
        size `slot` are known: record the slot, then `add_entity`. */
    method Append(cid: nat, slot: nat)
      requires Valid() && world.View().GetCid(ENTITY) == Ok(cid)
      requires slot == |world.View().columns[cid].data|
      modifies world.nodes, this`entity, this`pushed
      ensures Valid()
      ensures entity == old(entity).AddComponent(cid, slot)
      ensures world.View() == old(world.View()).PushAt(cid, Ent(entity))
      ensures pushed == old(pushed)[cid := Ent(entity)]
    {
      var e := entity.AddComponent(cid, slot);
      PushKeepsReady(world.View(), entity, pushed, cid, Ent(e));
      var o := world.AddEntity(e);
      Record(cid, slot, Ent(e));
    }
  }

  /** `World::build_entity`: a builder for a new entity of `w`. */
  method BuildEntity(w: World) returns (b: EntityBuilder)
    requires w.Valid()
    modifies w`nextEid
    ensures fresh(b) && b.Valid() && b.world == w && b.pushed == map[]
    ensures b.entity == NewEntity(old(w.nextEid), w.View().CountComponents())
    ensures w.nextEid == old(w.nextEid) + 1 && w.View() == old(w.View())
  {
    b := new EntityBuilder(w);
  }
}
