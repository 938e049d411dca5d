/** The entity record: an id fixed at construction, the bit-set of owned
    component ids (one bit per registered type) and, for every owned
    component id, the slot of its value in that type's column. */
module Entities {
  import opened Errors

  datatype Entity = Entity(id: nat, components: seq<bool>, slots: map<nat, nat>)
  {
    /** Bit `cid` of the component bit-set is set. */
    predicate Owns(cid: nat) {
      cid < |components| && components[cid]
    }

    /** A slot is recorded for exactly the owned component ids. */
    ghost predicate Valid() {
      && (forall c :: c in slots ==> Owns(c))
      && (forall c :: 0 <= c < |components| && components[c] ==> c in slots)
    }

    /** `add_component(cid, slot)`: set bit `cid` and remember `slot` for it. */
    function AddComponent(cid: nat, slot: nat): (r: Entity)
      requires cid < |components|
      ensures r.id == id && |r.components| == |components|
      ensures forall c :: r.Owns(c) <==> c == cid || Owns(c)
      ensures r.GetComponent(cid) == Some(slot)
      ensures forall c :: c != cid ==> r.GetComponent(c) == GetComponent(c)
      ensures Valid() ==> r.Valid()
    {
      Entity(id, components[cid := true], slots[cid := slot])
    }

    /** `get_component(cid)`: the recorded slot, if any. */
    function GetComponent(cid: nat): (r: Option<nat>)
      ensures r.Some? <==> cid in slots
      ensures Valid() && r.Some? ==> Owns(cid)
    {
      if cid in slots then Some(slots[cid]) else None
    }

    /** `has_component(mask)`: every bit set in `mask` is set in this entity's bit-set. */
    function HasComponents(mask: seq<bool>): (r: bool)
      ensures Valid() ==> (r <==> forall i :: 0 <= i < |mask| && mask[i] ==> GetComponent(i).Some?)
    {
      forall i :: 0 <= i < |mask| && mask[i] ==> Owns(i)
    }

    /** The owned component ids as a set. */
    ghost function OwnedSet(): set<nat> {
      set c | 0 <= c < |components| && components[c]
    }
  }

  /** The component ids whose bits are set in `mask`. */
  ghost function MaskSet(mask: seq<bool>): set<nat> {
    set i | 0 <= i < |mask| && mask[i]
  }

  /** `has_component(mask)` holds exactly when the components named by the
      mask are among the entity's own. */
  lemma HasComponentsSubset(e: Entity, mask: seq<bool>)
    ensures e.HasComponents(mask) <==> MaskSet(mask) <= e.OwnedSet()
  {
    if !e.HasComponents(mask) {
      var i :| 0 <= i < |mask| && mask[i] && !e.Owns(i);
      assert i in MaskSet(mask) && i !in e.OwnedSet();
    }
  }

  /** `Entity(eid, n_components)`: the given id and `n` clear bits. */
  function NewEntity(eid: nat, n: nat): (e: Entity)
    ensures e.id == eid && |e.components| == n
    ensures forall c :: !e.Owns(c) && e.GetComponent(c) == None
    ensures e.Valid()
  {
    Entity(eid, seq(n, _ => false), map[])
  }
}
