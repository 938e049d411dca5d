/** The world: an ordered list of type-tagged columns, a `type -> column
    index` map, an id counter and the registered systems.

    `Store` is the value a world holds at one moment (the map and the
    columns' contents); the pure lookups of the world (has_component,
    get_cid, count_components, mask, get) and the specification of fetch
    and dispatch are functions on it. `World` is the object: its methods
    change the counter, the map, the node list and the nodes in place. */
module Worlds {
  import opened Errors
  import opened Entities
  import opened Values
  import opened Registries

  /** A pointer into the world: the column index and the element's slot. */
  datatype Ref = Ref(cid: nat, slot: nat)

  /** A system: the component types it fetches and what it does to one
      tuple of those components (the values behind the tuple's pointers
      before and after its `run`). */
  datatype System = System(types: seq<TypeTag>, run: seq<Value> -> seq<Value>)
  {
    /** `run` writes back a value of the same type through every pointer,
        as the static types of the pointers force it to. */
    ghost predicate WellTyped() {
      forall vs: seq<Value> :: SameTypes(vs, run(vs))
    }
  }

  /** `b` holds a value of the same type as `a` at every position. */
  ghost predicate SameTypes(a: seq<Value>, b: seq<Value>) {
    |a| == |b| && forall i :: 0 <= i < |a| ==> TypeOf(b[i]) == TypeOf(a[i])
  }

  /** The indices of the entities whose bit-set covers `m`, in order. */
  function Matching(m: seq<bool>, ents: seq<Entity>): (idx: seq<nat>)
    ensures forall j :: 0 <= j < |idx| ==> idx[j] < |ents| && ents[idx[j]].HasComponents(m)
    ensures forall j, j' :: 0 <= j < j' < |idx| ==> idx[j] < idx[j']
    ensures forall k :: 0 <= k < |ents| && ents[k].HasComponents(m) ==> k in idx
    decreases |ents|
  {
    if ents == [] then []
    else
      var prev := Matching(m, ents[..|ents| - 1]);
      assert forall k :: 0 <= k < |ents| - 1 ==> ents[..|ents| - 1][k] == ents[k];
      if ents[|ents| - 1].HasComponents(m) then prev + [|ents| - 1] else prev
  }

  /** The contents of a world: the `type -> column index` map and the columns. */
  datatype Store = Store(lookup: map<nat, nat>, columns: seq<Column>)
  {
    /** The map is a bijection between the registered tags and the column
        indices, column `i` is tagged with the type mapped to `i`, and every
        column holds values of its own type only. */
    ghost predicate Valid() {
      && |lookup| == |columns|
      && (forall t :: t in lookup ==> lookup[t] < |columns| && columns[lookup[t]].tag == t)
      && (forall i :: 0 <= i < |columns| ==> columns[i].tag in lookup && lookup[columns[i].tag] == i)
      && (forall i :: 0 <= i < |columns| ==> columns[i].Typed())
    }

    /** `has_component<T>`: some column holds `T`. */
    function HasComponent(t: TypeTag): (r: bool)
      requires Valid()
      ensures r <==> exists i :: 0 <= i < |columns| && columns[i].tag == t
    {
      if t in lookup then
        assert columns[lookup[t]].tag == t;
        true
      else false
    }

    /** `get_cid<T>`: the index of the one column that holds `T`. */
    function GetCid(t: TypeTag): (r: Result<nat>)
      requires Valid()
      ensures r.Ok? <==> HasComponent(t)
      ensures r.Err? ==> r.error == NotRegistered
      ensures r.Ok? ==> r.value < |columns| && columns[r.value].tag == t
      ensures r.Ok? ==> forall i :: 0 <= i < |columns| && columns[i].tag == t ==> i == r.value
    {
      if t in lookup then Ok(lookup[t]) else Err(NotRegistered)
    }

    /** `count_components`: the number of columns, one per registered type. */
    function CountComponents(): (n: nat)
      requires Valid()
      ensures n == |lookup|
    {
      |columns|
    }

    /** `mask<Ts...>`: one bit per column, set exactly for the columns of `ts`. */
    function Mask(ts: seq<TypeTag>): (r: Result<seq<bool>>)
      requires Valid()
      ensures r.Ok? <==> forall t :: t in ts ==> HasComponent(t)
      ensures r.Err? ==> r.error == NotRegistered
      ensures r.Ok? ==> |r.value| == CountComponents()
      ensures r.Ok? ==> forall i :: 0 <= i < |columns| ==> (r.value[i] <==> columns[i].tag in ts)
      decreases |ts|
    {
      if ts == [] then Ok(seq(|columns|, _ => false))
      else
        var init, last := ts[..|ts| - 1], ts[|ts| - 1];
        assert ts == init + [last];
        match Mask(init)
        case Err(e) => Err(e)
        case Ok(bits) =>
          match GetCid(last)
          case Err(e) => Err(e)
          case Ok(cid) => Ok(bits[cid := true])
    }

    /** `register_component<T>` on the contents: map `t` to the next column
        index and append an empty `t` column. The columns already there keep
        their indices. */
    function Register(t: TypeTag): (s: Store)
      requires Valid() && !HasComponent(t)
      ensures s.Valid()
      ensures s.GetCid(t) == Ok(CountComponents())
      ensures forall u :: u != t ==> s.GetCid(u) == GetCid(u)
      ensures s.columns == columns + [NewColumn(t)]
    {
      RegisterKeepsValid(this, t);
      Store(lookup[t := |columns|], columns + [NewColumn(t)])
    }

    /** A reference addresses an existing element. */
    predicate RefValid(r: Ref) {
      r.cid < |columns| && r.slot < |columns[r.cid].data|
    }

    /** The element a reference points to. */
    function Deref(r: Ref): Value
      requires RefValid(r)
    {
      columns[r.cid].data[r.slot]
    }

    /** `get<T>(e)`: a pointer to the element of `T`'s column at the slot `e`
        records for `T`'s column index. */
    function Get(t: TypeTag, e: Entity): (r: Result<Ref>)
      requires Valid()
      ensures r.Ok? <==>
        HasComponent(t) && e.GetComponent(lookup[t]).Some?
        && e.GetComponent(lookup[t]).value < |columns[lookup[t]].data|
      ensures r.Err? ==> r.error == (if HasComponent(t) then OutOfRange else NotRegistered)
      ensures r.Ok? ==> GetCid(t) == Ok(r.value.cid) && e.GetComponent(r.value.cid) == Some(r.value.slot)
      ensures r.Ok? ==> RefValid(r.value) && TypeOf(Deref(r.value)) == t
    {
      match GetCid(t)
      case Err(err) => Err(err)
      case Ok(cid) =>
        match e.GetComponent(cid)
        case None => Err(OutOfRange)
        case Some(idx) =>
          match columns[cid].Get(t, idx)
          case Err(err) => Err(err)
          case Ok(_) => Ok(Ref(cid, idx))
    }

    /** The entities stored in the `Entity` column, in column order. */
    function Entities(): (es: seq<Entity>)
      requires Valid()
      ensures ENTITY !in lookup ==> es == []
      ensures ENTITY in lookup ==>
        |es| == |columns[lookup[ENTITY]].data|
        && forall k :: 0 <= k < |es| ==> columns[lookup[ENTITY]].data[k] == Ent(es[k])
    {
      if ENTITY !in lookup then []
      else
        var col := columns[lookup[ENTITY]];
        assert col.Typed();
        assert forall k :: 0 <= k < |col.data| ==> TypeOf(col.data[k]) == ENTITY;
        EntitiesOf(col.data)
    }

    /** The pointers `get<Ts>(&e)...` for one entity. */
    function Tuple(e: Entity, ts: seq<TypeTag>): (r: Result<seq<Ref>>)
      requires Valid()
      ensures r.Ok? <==> forall i :: 0 <= i < |ts| ==> Get(ts[i], e).Ok?
      ensures r.Ok? ==> |r.value| == |ts| && forall i :: 0 <= i < |ts| ==> Get(ts[i], e) == Ok(r.value[i])
      ensures r.Ok? ==> Addressable(r.value)
      decreases |ts|
    {
      if ts == [] then Ok([])
      else
        var init, last := ts[..|ts| - 1], ts[|ts| - 1];
        assert forall i :: 0 <= i < |init| ==> init[i] == ts[i];
        match Tuple(e, init)
        case Err(err) => Err(err)
        case Ok(prefix) =>
          match Get(last, e)
          case Err(err) => Err(err)
          case Ok(ref) => Ok(prefix + [ref])
    }

    /** The loop of `fetch` over the entities `ents`: one tuple for each
        entity whose bit-set covers `m`, in order. */
    function FetchOver(m: seq<bool>, ts: seq<TypeTag>, ents: seq<Entity>): (r: Result<seq<seq<Ref>>>)
      requires Valid()
      ensures r.Ok? ==> forall j :: 0 <= j < |r.value| ==> Addressable(r.value[j])
      decreases |ents|
    {
      if ents == [] then Ok([])
      else
        var n := |ents| - 1;
        var init, e := ents[..n], ents[n];
        match FetchOver(m, ts, init)
        case Err(err) => Err(err)
        case Ok(acc) =>
          if !e.HasComponents(m) then Ok(acc)
          else
            match Tuple(e, ts)
            case Err(err) => Err(err)
            case Ok(tu) => Ok(acc + [tu])
    }

    /** `fetch<Ts...>`: the mask, then the `Entity` column, then the loop. */
    function Fetch(ts: seq<TypeTag>): (r: Result<seq<seq<Ref>>>)
      requires Valid()
      ensures !HasComponent(ENTITY) || (exists t :: t in ts && !HasComponent(t)) ==> r == Err(NotRegistered)
      ensures r.Ok? ==> forall j :: 0 <= j < |r.value| ==> Addressable(r.value[j])
    {
      match Mask(ts)
      case Err(e) => Err(e)
      case Ok(m) =>
        if ENTITY !in lookup then Err(NotRegistered)
        else FetchOver(m, ts, Entities())
    }

    /** Every recorded slot of `e` addresses an element, and `e` has one bit
        per column. */
    ghost predicate SlotsInRange(e: Entity)
      requires Valid()
    {
      && e.Valid()
      && |e.components| == |columns|
      && forall c :: c in e.slots ==> c < |columns| && e.slots[c] < |columns[c].data|
    }

    /** The entity bookkeeping that the builders maintain: the entity at
        slot `k` of the `Entity` column records `k` as its own slot, and
        all of its slots are in range. */
    ghost predicate Bookkept()
      requires Valid()
    {
      ENTITY in lookup ==>
        var es := Entities();
        forall k :: 0 <= k < |es| ==>
          SlotsInRange(es[k]) && es[k].GetComponent(lookup[ENTITY]) == Some(k)
    }

    /** The same map, and columns with the same tags and sizes. */
    ghost predicate SameShape(s: Store) {
      && s.lookup == lookup
      && |s.columns| == |columns|
      && forall i :: 0 <= i < |columns| ==>
           s.columns[i].tag == columns[i].tag && |s.columns[i].data| == |columns[i].data|
    }

    /** Append `v` to column `cid` (a node's `push` seen from the world). */
    function PushAt(cid: nat, v: Value): (s: Store)
      requires Valid() && cid < |columns| && TypeOf(v) == columns[cid].tag
      ensures s.Valid() && s.lookup == lookup && |s.columns| == |columns|
      ensures s.columns[cid].tag == columns[cid].tag
      ensures s.columns[cid].data == columns[cid].data + [v]
      ensures forall i :: 0 <= i < |columns| && i != cid ==> s.columns[i] == columns[i]
    {
      Store(lookup, columns[cid := columns[cid].Push(v).value])
    }

    /** Write `v` through the pointer `r` (what a system does through the
        pointers of its tuple). */
    function Write(r: Ref, v: Value): (s: Store)
      requires Valid() && RefValid(r) && TypeOf(v) == columns[r.cid].tag
      ensures s.Valid() && SameShape(s)
      ensures s.Deref(r) == v
      ensures forall q :: RefValid(q) && q != r ==> s.Deref(q) == Deref(q)
    {
      var col := columns[r.cid].Set(r.slot, v).value;
      var s := Store(lookup, columns[r.cid := col]);
      assert forall q :: s.RefValid(q) && q.cid == r.cid && q != r ==> s.Deref(q) == col.data[q.slot];
      s
    }

    /** Every pointer of a tuple addresses an element. */
    predicate Addressable(refs: seq<Ref>) {
      forall i :: 0 <= i < |refs| ==> RefValid(refs[i])
    }

    /** The values behind a tuple of pointers. */
    function Read(refs: seq<Ref>): (vs: seq<Value>)
      requires Valid() && Addressable(refs)
      ensures |vs| == |refs|
      ensures forall i :: 0 <= i < |refs| ==> vs[i] == Deref(refs[i]) && TypeOf(vs[i]) == columns[refs[i].cid].tag
    {
      var vs := seq(|refs|, i requires 0 <= i < |refs| => Deref(refs[i]));
      forall i | 0 <= i < |refs|
        ensures RefValid(refs[i]) && TypeOf(vs[i]) == columns[refs[i].cid].tag
      {
        assert RefValid(refs[i]);
        assert columns[refs[i].cid].Typed();
      }
      vs
    }

    /** Write `outs[i]` through `refs[i]`, for `i` in increasing order. */
    function WriteAll(refs: seq<Ref>, outs: seq<Value>): (s: Store)
      requires Valid() && |refs| == |outs|
      requires forall i :: 0 <= i < |refs| ==> RefValid(refs[i]) && TypeOf(outs[i]) == columns[refs[i].cid].tag
      ensures s.Valid() && SameShape(s)
      decreases |refs|
    {
      if refs == [] then this
      else
        var n := |refs| - 1;
        var s' := WriteAll(refs[..n], outs[..n]);
        KeepsShape(this, s', refs[n]);
        s'.Write(refs[n], outs[n])
    }

    /** One call of a system's `run` on one tuple. */
    function RunTuple(refs: seq<Ref>, sys: System): (s: Store)
      requires Valid() && sys.WellTyped() && Addressable(refs)
      ensures s.Valid() && SameShape(s)
    {
      var vals := Read(refs);
      var outs := sys.run(vals);
      WriteAll(refs, outs)
    }

    /** `run` on each tuple in turn. */
    function RunTuples(tuples: seq<seq<Ref>>, sys: System): (s: Store)
      requires Valid() && sys.WellTyped()
      requires forall j :: 0 <= j < |tuples| ==> Addressable(tuples[j])
      ensures s.Valid() && SameShape(s)
      decreases |tuples|
    {
      if tuples == [] then this
      else
        var n := |tuples| - 1;
        var s' := RunTuples(tuples[..n], sys);
        KeepsAddressable(this, s', tuples[n]);
        s'.RunTuple(tuples[n], sys)
    }

    /** A system's `exec`: fetch its tuples, then run it on each. */
    function Exec(sys: System): (r: Result<Store>)
      requires Valid() && sys.WellTyped()
      ensures r.Err? <==> Fetch(sys.types).Err?
      ensures r.Err? ==> r.error == Fetch(sys.types).error
      ensures r.Ok? ==> r.value.Valid() && SameShape(r.value)
    {
      match Fetch(sys.types)
      case Err(e) => Err(e)
      case Ok(tuples) => Ok(RunTuples(tuples, sys))
    }

    /** One `exec` as `dispatch` sees it: the new contents and the outcome;
        a failed `exec` changes nothing. */
    function Step(sys: System): (r: (Store, Outcome))
      requires Valid() && sys.WellTyped()
      ensures r.0.Valid() && SameShape(r.0)
      ensures r.1.Fail? <==> Exec(sys).Err?
      ensures r.1.Fail? ==> r == (this, Fail(Exec(sys).error))
      ensures r.1.Pass? ==> r.0 == Exec(sys).value
    {
      match Exec(sys)
      case Err(e) => (this, Fail(e))
      case Ok(s2) => (s2, Pass)
    }

    /** `dispatch`: each system's `exec` once, in order; the first failure
        stops the run. */
    function Dispatch(systems: seq<System>): (r: (Store, Outcome))
      requires Valid() && forall i :: 0 <= i < |systems| ==> systems[i].WellTyped()
      ensures r.0.Valid() && SameShape(r.0)
      decreases |systems|
    {
      if systems == [] then (this, Pass)
      else
        var n := |systems| - 1;
        var (s, o) := Dispatch(systems[..n]);
        if o.Fail? then (s, o) else s.Step(systems[n])
    }
  }

  /** The loop of `fetch` fails exactly when one of the entities whose
      bit-set covers the mask lacks an element. */
  lemma {:induction false} FetchOverFails(s: Store, m: seq<bool>, ts: seq<TypeTag>, ents: seq<Entity>)
    requires s.Valid()
    ensures s.FetchOver(m, ts, ents).Ok? <==>
      forall k :: 0 <= k < |ents| && ents[k].HasComponents(m) ==> s.Tuple(ents[k], ts).Ok?
    decreases |ents|
  {
    if ents != [] {
      var n := |ents| - 1;
      var init := ents[..n];
      assert forall k :: 0 <= k < n ==> init[k] == ents[k];
      FetchOverFails(s, m, ts, init);
    }
  }

  /** The loop of `fetch` yields exactly one tuple per entity whose bit-set
      covers the mask, in entity order. */
  lemma {:induction false} FetchOverExact(s: Store, m: seq<bool>, ts: seq<TypeTag>, ents: seq<Entity>)
    requires s.Valid() && s.FetchOver(m, ts, ents).Ok?
    ensures
      var idx, r := Matching(m, ents), s.FetchOver(m, ts, ents).value;
      |r| == |idx| && forall j :: 0 <= j < |idx| ==> s.Tuple(ents[idx[j]], ts) == Ok(r[j])
    decreases |ents|
  {
    if ents != [] {
      var n := |ents| - 1;
      var init := ents[..n];
      FetchOverSnoc(s, m, ts, ents);
      FetchOverExact(s, m, ts, init);
      var prev, idx0 := s.FetchOver(m, ts, init).value, Matching(m, init);
      var idx, r := Matching(m, ents), s.FetchOver(m, ts, ents).value;
      forall j | 0 <= j < |idx|
        ensures s.Tuple(ents[idx[j]], ts) == Ok(r[j])
      {
        if j < |idx0| {
          assert idx[j] == idx0[j] && r[j] == prev[j];
          assert ents[idx0[j]] == init[idx0[j]];
        }
      }
    }
  }

  /** The loop of `fetch` over one entity more: the tuple of that entity is
      appended exactly when it covers the mask. */
  lemma FetchOverSnoc(s: Store, m: seq<bool>, ts: seq<TypeTag>, ents: seq<Entity>)
    requires s.Valid() && ents != [] && s.FetchOver(m, ts, ents).Ok?
    ensures var n := |ents| - 1;
      var init := ents[..n];
      && s.FetchOver(m, ts, init).Ok?
      && (ents[n].HasComponents(m) ==>
            && s.Tuple(ents[n], ts).Ok?
            && s.FetchOver(m, ts, ents).value == s.FetchOver(m, ts, init).value + [s.Tuple(ents[n], ts).value]
            && Matching(m, ents) == Matching(m, init) + [n])
      && (!ents[n].HasComponents(m) ==>
            && s.FetchOver(m, ts, ents).value == s.FetchOver(m, ts, init).value
            && Matching(m, ents) == Matching(m, init))
  {
  }

  /** An entity covers the mask of `ts` exactly when it owns the column of
      every type in `ts`. */
  lemma MaskCovers(s: Store, ts: seq<TypeTag>, e: Entity)
    requires s.Valid() && s.Mask(ts).Ok?
    ensures e.HasComponents(s.Mask(ts).value) <==> forall t :: t in ts ==> e.Owns(s.lookup[t])
  {
    var m := s.Mask(ts).value;
    if e.HasComponents(m) {
      forall t | t in ts ensures e.Owns(s.lookup[t]) {
        assert s.columns[s.lookup[t]].tag == t;
        assert m[s.lookup[t]];
      }
    } else {
      var i :| 0 <= i < |m| && m[i] && !e.Owns(i);
      assert s.columns[i].tag in ts;
    }
  }

  /** `fetch<Ts...>` yields, in the order of the `Entity` column, one tuple
      for each entity owning every type of `ts` and for no other entity;
      the tuple holds the pointers `get<T>` returns for that entity. */
  lemma FetchExact(s: Store, ts: seq<TypeTag>)
    requires s.Valid() && s.Fetch(ts).Ok?
    ensures s.HasComponent(ENTITY) && forall t :: t in ts ==> s.HasComponent(t)
    ensures
      var ents, r := s.Entities(), s.Fetch(ts).value;
      var idx := Matching(s.Mask(ts).value, ents);
      && |r| == |idx|
      && (forall j, j' :: 0 <= j < j' < |idx| ==> idx[j] < idx[j'])
      && (forall k :: 0 <= k < |ents| ==> (k in idx <==> forall t :: t in ts ==> ents[k].Owns(s.lookup[t])))
      && (forall j :: 0 <= j < |idx| ==> |r[j]| == |ts| && forall i :: 0 <= i < |ts| ==> s.Get(ts[i], ents[idx[j]]) == Ok(r[j][i]))
  {
    var ents := s.Entities();
    var m := s.Mask(ts).value;
    FetchOverExact(s, m, ts, ents);
    forall k | 0 <= k < |ents| ensures ents[k].HasComponents(m) <==> forall t :: t in ts ==> ents[k].Owns(s.lookup[t]) {
      MaskCovers(s, ts, ents[k]);
    }
  }

  /** On a world whose entity bookkeeping holds, `fetch` fails exactly when
      `Entity` or one of the requested types is not registered. */
  lemma FetchFailsOnlyUnregistered(s: Store, ts: seq<TypeTag>)
    requires s.Valid() && s.Bookkept()
    ensures s.Fetch(ts).Ok? <==> s.HasComponent(ENTITY) && forall t :: t in ts ==> s.HasComponent(t)
  {
    if s.HasComponent(ENTITY) && forall t :: t in ts ==> s.HasComponent(t) {
      var ents := s.Entities();
      var m := s.Mask(ts).value;
      forall k | 0 <= k < |ents| && ents[k].HasComponents(m) ensures s.Tuple(ents[k], ts).Ok? {
        MaskCovers(s, ts, ents[k]);
        forall i | 0 <= i < |ts| ensures s.Get(ts[i], ents[k]).Ok? {
          assert ts[i] in ts;
          var c := s.lookup[ts[i]];
          assert ents[k].Owns(c) && s.SlotsInRange(ents[k]);
          assert c in ents[k].slots;
        }
      }
      FetchOverFails(s, m, ts, ents);
    }
  }

  /** Registering a new type keeps the map and the columns in step. */
  lemma RegisterKeepsValid(st: Store, t: TypeTag)
    requires st.Valid() && t !in st.lookup
    ensures Store(st.lookup[t := |st.columns|], st.columns + [NewColumn(t)]).Valid()
  {
    var s := Store(st.lookup[t := |st.columns|], st.columns + [NewColumn(t)]);
    assert NewColumn(t).tag == t;
    assert |s.lookup| == |s.columns|;
    assert forall i :: 0 <= i < |st.columns| ==> s.columns[i] == st.columns[i] && st.columns[i].tag != t;
    assert forall u :: u in s.lookup ==> s.lookup[u] < |s.columns| && s.columns[s.lookup[u]].tag == u;
  }

  /** Once the loop of `fetch` has failed, it stays failed with the same error. */
  lemma {:induction false} FetchOverFailureSticks(s: Store, m: seq<bool>, ts: seq<TypeTag>, ents: seq<Entity>, k: nat)
    requires s.Valid() && k <= |ents| && s.FetchOver(m, ts, ents[..k]).Err?
    ensures s.FetchOver(m, ts, ents) == s.FetchOver(m, ts, ents[..k])
    decreases |ents| - k
  {
    if k < |ents| {
      assert ents[..k + 1][..k] == ents[..k];
      FetchOverFailureSticks(s, m, ts, ents, k + 1);
    } else {
      assert ents[..k] == ents;
    }
  }

  /** A store of the same shape accepts the same tuples. */
  lemma KeepsAddressable(s: Store, s': Store, refs: seq<Ref>)
    requires s.SameShape(s') && s.Addressable(refs)
    ensures s'.Addressable(refs)
  {
    forall i | 0 <= i < |refs| ensures s'.RefValid(refs[i]) {
      KeepsShape(s, s', refs[i]);
    }
  }

  /** Appending an element that is not there keeps a sequence free of duplicates. */
  lemma DistinctAppend<T>(s: seq<T>, x: T)
    requires forall i, j :: 0 <= i < j < |s| ==> s[i] != s[j]
    requires x !in s
    ensures forall i, j :: 0 <= i < j < |s + [x]| ==> (s + [x])[i] != (s + [x])[j]
  {
  }

  /** Taking every element of a sequence gives the sequence back. */
  lemma WholeSlice<T>(s: seq<T>)
    ensures s[..|s|] == s
  {
  }

  /** Running a system on one tuple more. */
  lemma RunTuplesStep(s: Store, tuples: seq<seq<Ref>>, sys: System, j: nat, before: Store)
    requires s.Valid() && sys.WellTyped() && j < |tuples|
    requires forall k :: 0 <= k < |tuples| ==> s.Addressable(tuples[k])
    requires before == s.RunTuples(tuples[..j], sys)
    ensures before.Valid() && before.Addressable(tuples[j])
    ensures s.RunTuples(tuples[..j + 1], sys) == before.RunTuple(tuples[j], sys)
  {
    assert tuples[..j + 1][..j] == tuples[..j];
    KeepsAddressable(s, before, tuples[j]);
  }

  /** Writing back through a tuple leaves every element outside the tuple
      as it was. */
  lemma {:induction false} WriteAllFrame(s: Store, refs: seq<Ref>, outs: seq<Value>, q: Ref)
    requires s.Valid() && |refs| == |outs|
    requires forall i :: 0 <= i < |refs| ==> s.RefValid(refs[i]) && TypeOf(outs[i]) == s.columns[refs[i].cid].tag
    requires s.RefValid(q) && q !in refs
    ensures s.WriteAll(refs, outs).RefValid(q)
    ensures s.WriteAll(refs, outs).Deref(q) == s.Deref(q)
    decreases |refs|
  {
    if refs != [] {
      var n := |refs| - 1;
      assert q !in refs[..n] && q != refs[n] by {
        assert refs == refs[..n] + [refs[n]];
      }
      WriteAllFrame(s, refs[..n], outs[..n], q);
      var s' := s.WriteAll(refs[..n], outs[..n]);
      KeepsShape(s, s', refs[n]);
      assert s.WriteAll(refs, outs) == s'.Write(refs[n], outs[n]);
    }
  }

  /** Through a tuple without repeated pointers, each pointer ends up
      holding the value written through it. */
  lemma {:induction false} WriteAllLands(s: Store, refs: seq<Ref>, outs: seq<Value>, i: nat)
    requires s.Valid() && |refs| == |outs|
    requires forall k :: 0 <= k < |refs| ==> s.RefValid(refs[k]) && TypeOf(outs[k]) == s.columns[refs[k].cid].tag
    requires forall j, k :: 0 <= j < k < |refs| ==> refs[j] != refs[k]
    requires i < |refs|
    ensures s.WriteAll(refs, outs).RefValid(refs[i])
    ensures s.WriteAll(refs, outs).Deref(refs[i]) == outs[i]
    decreases |refs|
  {
    var n := |refs| - 1;
    KeepsShape(s, s.WriteAll(refs[..n], outs[..n]), refs[n]);
    if i < n {
      WriteAllLands(s, refs[..n], outs[..n], i);
      assert refs[i] != refs[n];
    }
  }

  /** One `run` on a tuple without repeated pointers: pointer `i` holds
      the `i`-th result of `run` on the values read, and every element
      outside the tuple keeps its value. */
  lemma RunTupleEffect(s: Store, refs: seq<Ref>, sys: System, q: Ref)
    requires s.Valid() && sys.WellTyped() && s.Addressable(refs)
    requires forall j, k :: 0 <= j < k < |refs| ==> refs[j] != refs[k]
    ensures forall i :: 0 <= i < |refs| ==>
      s.RunTuple(refs, sys).RefValid(refs[i])
      && s.RunTuple(refs, sys).Deref(refs[i]) == sys.run(s.Read(refs))[i]
    ensures s.RefValid(q) && q !in refs ==>
      s.RunTuple(refs, sys).RefValid(q) && s.RunTuple(refs, sys).Deref(q) == s.Deref(q)
  {
    var outs := sys.run(s.Read(refs));
    assert SameTypes(s.Read(refs), outs);
    forall i | 0 <= i < |refs|
      ensures s.WriteAll(refs, outs).RefValid(refs[i]) && s.WriteAll(refs, outs).Deref(refs[i]) == outs[i]
    {
      WriteAllLands(s, refs, outs, i);
    }
    if s.RefValid(q) && q !in refs {
      WriteAllFrame(s, refs, outs, q);
    }
  }

  /** Running a system over a list of tuples leaves every element that no
      tuple points to as it was. */
  lemma {:induction false} RunTuplesFrame(s: Store, tuples: seq<seq<Ref>>, sys: System, q: Ref)
    requires s.Valid() && sys.WellTyped()
    requires forall j :: 0 <= j < |tuples| ==> s.Addressable(tuples[j])
    requires s.RefValid(q) && forall j :: 0 <= j < |tuples| ==> q !in tuples[j]
    ensures s.RunTuples(tuples, sys).RefValid(q)
    ensures s.RunTuples(tuples, sys).Deref(q) == s.Deref(q)
    decreases |tuples|
  {
    if tuples != [] {
      var n := |tuples| - 1;
      RunTuplesFrame(s, tuples[..n], sys, q);
      var s' := s.RunTuples(tuples[..n], sys);
      KeepsAddressable(s, s', tuples[n]);
      var outs := sys.run(s'.Read(tuples[n]));
      assert SameTypes(s'.Read(tuples[n]), outs);
      WriteAllFrame(s', tuples[n], outs, q);
    }
  }

  /** `exec` changes no element outside the tuples its fetch returns: a
      component of an entity the fetch does not match keeps its value. */
  lemma ExecFrame(s: Store, sys: System, q: Ref)
    requires s.Valid() && sys.WellTyped() && s.Fetch(sys.types).Ok? && s.RefValid(q)
    requires forall j :: 0 <= j < |s.Fetch(sys.types).value| ==> q !in s.Fetch(sys.types).value[j]
    ensures s.Exec(sys).Ok?
    ensures s.Exec(sys).value.RefValid(q) && s.Exec(sys).value.Deref(q) == s.Deref(q)
  {
    RunTuplesFrame(s, s.Fetch(sys.types).value, sys, q);
  }

  /** An `exec` whose fetch succeeded passes, with the contents left by
      running the system on every fetched tuple. */
  lemma ExecRan(s: Store, sys: System, after: Store)
    requires s.Valid() && sys.WellTyped() && s.Fetch(sys.types).Ok?
    requires after == s.RunTuples(s.Fetch(sys.types).value, sys)
    ensures s.Step(sys) == (after, Pass)
  {
  }

  /** Once `dispatch` has failed, the remaining systems do not run. */
  lemma {:induction false} DispatchFailureSticks(s: Store, systems: seq<System>, k: nat)
    requires s.Valid() && k <= |systems|
    requires forall i :: 0 <= i < |systems| ==> systems[i].WellTyped()
    requires s.Dispatch(systems[..k]).1.Fail?
    ensures s.Dispatch(systems) == s.Dispatch(systems[..k])
    decreases |systems| - k
  {
    if k < |systems| {
      assert systems[..k + 1][..k] == systems[..k];
      DispatchFailureSticks(s, systems, k + 1);
    } else {
      assert systems[..k] == systems;
    }
  }

  /** Dispatching the first `i + 1` systems: the first `i`, then, unless
      they failed, one `exec` of system `i`. */
  lemma DispatchSnoc(s: Store, systems: seq<System>, i: nat)
    requires s.Valid() && i < |systems|
    requires forall k :: 0 <= k < |systems| ==> systems[k].WellTyped()
    ensures var (before, o) := s.Dispatch(systems[..i]);
      s.Dispatch(systems[..i + 1]) == if o.Fail? then (before, o) else before.Step(systems[i])
  {
    assert systems[..i + 1][..i] == systems[..i];
  }

  /** Dispatching one system more, after a prefix that succeeded: the
      outcome of that system's `exec`, and, when it failed, the outcome of
      the whole dispatch. */
  lemma DispatchStep(s: Store, systems: seq<System>, i: nat, before: Store, after: Store, o: Outcome)
    requires s.Valid() && i < |systems|
    requires forall k :: 0 <= k < |systems| ==> systems[k].WellTyped()
    requires s.Dispatch(systems[..i]) == (before, Pass)
    requires (after, o) == before.Step(systems[i])
    ensures s.Dispatch(systems[..i + 1]) == (after, o)
    ensures o.Fail? ==> s.Dispatch(systems) == (after, o)
  {
    DispatchSnoc(s, systems, i);
    if o.Fail? {
      DispatchFailureSticks(s, systems, i + 1);
    }
  }

  /** A store of the same shape accepts the same references, with the same
      column types. */
  lemma KeepsShape(s: Store, s': Store, r: Ref)
    requires s.SameShape(s') && s.RefValid(r)
    ensures s'.RefValid(r) && s'.columns[r.cid].tag == s.columns[r.cid].tag
  {
  }

  /** The entities inside a sequence of `Entity` values. */
  function EntitiesOf(vs: seq<Value>): (es: seq<Entity>)
    requires forall k :: 0 <= k < |vs| ==> vs[k].Ent?
    ensures |es| == |vs| && forall k :: 0 <= k < |vs| ==> vs[k] == Ent(es[k])
  {
    seq(|vs|, k requires 0 <= k < |vs| => vs[k].entity)
  }

  /** The contents of a world whose map is `lookup` and whose nodes are
      `nodes`, in registration order. */
  function ViewOf(lookup: map<nat, nat>, nodes: seq<RegistryNode>): (s: Store)
    reads nodes
    ensures s.lookup == lookup && |s.columns| == |nodes|
    ensures forall i :: 0 <= i < |nodes| ==> s.columns[i] == nodes[i].View()
  {
    Store(lookup, seq(|nodes|, i reads nodes requires 0 <= i < |nodes| => nodes[i].View()))
  }

  /** The loop of `fetch`: walk the entities in order, and for each one
      whose bit-set covers `m` push its tuple of pointers. */
  method Collect(store: Store, m: seq<bool>, ts: seq<TypeTag>, ents: seq<Entity>) returns (r: Result<seq<seq<Ref>>>)
    requires store.Valid()
    ensures r == store.FetchOver(m, ts, ents)
  {
    var vec: seq<seq<Ref>> := [];
    for k := 0 to |ents|
      invariant store.FetchOver(m, ts, ents[..k]) == Ok(vec)
    {
      assert ents[..k + 1][..k] == ents[..k];
      var e := ents[k];
      if e.HasComponents(m) {
        var tr := store.Tuple(e, ts);
        if tr.Err? {
          FetchOverFailureSticks(store, m, ts, ents, k + 1);
          return Err(tr.error);
        }
        vec := vec + [tr.value];
      }
    }
    WholeSlice(ents);
    r := Ok(vec);
  }

  /** The view of one node more. */
  lemma ViewOfAppend(lookup: map<nat, nat>, lookup': map<nat, nat>, nodes: seq<RegistryNode>, node: RegistryNode)
    ensures ViewOf(lookup', nodes + [node]) == ViewOf(lookup, nodes).(lookup := lookup', columns := ViewOf(lookup, nodes).columns + [node.View()])
  {
    assert ViewOf(lookup', nodes + [node]).columns == ViewOf(lookup, nodes).columns + [node.View()];
  }

  /** Appending a node with an empty `t` column under the next index is
      `Register(t)` on the contents. */
  lemma AppendRegisters(s0: Store, lookup: map<nat, nat>, nodes: seq<RegistryNode>, node: RegistryNode, t: TypeTag)
    requires ViewOf(lookup, nodes) == s0 && s0.Valid() && !s0.HasComponent(t)
    requires node.View() == NewColumn(t)
    ensures ViewOf(lookup[t := |nodes|], nodes + [node]) == s0.Register(t)
  {
    ViewOfAppend(lookup, lookup[t := |nodes|], nodes, node);
  }

  /** The view after one node's contents changed and the others' did not. */
  lemma ViewOfSet(lookup: map<nat, nat>, nodes: seq<RegistryNode>, c: nat, s0: Store)
    requires c < |nodes| && s0.lookup == lookup && |s0.columns| == |nodes|
    requires forall i :: 0 <= i < |nodes| && i != c ==> nodes[i].View() == s0.columns[i]
    ensures ViewOf(lookup, nodes) == s0.(columns := s0.columns[c := nodes[c].View()])
  {
    assert ViewOf(lookup, nodes).columns == s0.columns[c := nodes[c].View()];
  }

  /** The world object. */
  class World {
    var nextEid: nat
    var nodes: seq<RegistryNode>
    var lookup: map<nat, nat>
    var systems: seq<System>

    /** The map and the current contents of the nodes. */
    function View(): Store
      reads this, nodes
    {
      ViewOf(lookup, nodes)
    }

    ghost predicate Valid()
      reads this, nodes
    {
      && (forall i, j :: 0 <= i < j < |nodes| ==> nodes[i] != nodes[j])
      && View().Valid()
      && (forall i :: 0 <= i < |systems| ==> systems[i].WellTyped())
    }

    /** `World() = default`: no columns, no systems, and `next_eid` left
        uninitialised, so the first id is arbitrary. */
    constructor ()
      ensures Valid() && nodes == [] && lookup == map[] && systems == []
    {
      nextEid := *;
      nodes, lookup, systems := [], map[], [];
    }

    /** `get_eid`: hand out the counter and advance it. */
    method GetEid() returns (id: nat)
      modifies this`nextEid
      ensures id == old(nextEid) && nextEid == old(nextEid) + 1
    {
      id := nextEid;
      nextEid := nextEid + 1;
    }

    /** `register_component<T>`: refuse a known type; otherwise map `t` to the
        next column index and append a fresh empty `t` column. */
    method RegisterComponent(t: TypeTag) returns (r: Outcome)
      requires Valid()
      modifies this`lookup, this`nodes
      ensures Valid()
      ensures r.Fail? <==> old(View().HasComponent(t))
      ensures r.Fail? ==> r.error == AlreadyRegistered && View() == old(View()) && nodes == old(nodes)
      ensures r.Pass? ==>
        && View() == old(View()).Register(t)
        && nodes[..|old(nodes)|] == old(nodes) && fresh(nodes[|old(nodes)|])
    {
      if t in lookup {
        return Fail(AlreadyRegistered);
      }
      AppendColumn(t);
      r := Pass;
    }

    /** The registering half of `register_component<T>`. */
    method AppendColumn(t: TypeTag)
      requires Valid() && !View().HasComponent(t)
      modifies this`lookup, this`nodes
      ensures Valid() && View() == old(View()).Register(t)
      ensures nodes[..|old(nodes)|] == old(nodes) && fresh(nodes[|old(nodes)|])
    {
      ghost var s0 := View();
      var node := RegistryNode.Create(t);
      AppendRegisters(s0, lookup, nodes, node, t);
      DistinctAppend(nodes, node);
      lookup, nodes := lookup[t := |nodes|], nodes + [node];
    }

    /** `find<T>`: the node that holds `T`. */
    function Find(t: TypeTag): (r: Result<RegistryNode>)
      requires Valid()
      reads this, nodes
      ensures r.Ok? <==> View().HasComponent(t)
      ensures r.Err? ==> r.error == NotRegistered
      ensures r.Ok? ==> r.value == nodes[View().GetCid(t).value] && r.value.tag == t
    {
      if t in lookup then Ok(nodes[lookup[t]]) else Err(NotRegistered)
    }

    /** `fetch<Ts...>`: the loop over the `Entity` column. */
    method Fetch(ts: seq<TypeTag>) returns (r: Result<seq<seq<Ref>>>)
      requires Valid()
      ensures r == View().Fetch(ts)
    {
      var store := View();
      var mr := store.Mask(ts);
      if mr.Err? {
        return Err(mr.error);
      }
      var m := mr.value;
      var nr := Find(ENTITY);
      if nr.Err? {
        return Err(nr.error);
      }
      r := Collect(store, m, ts, store.Entities());
    }

    /** `add_entity`: append `e` to the `Entity` column and nowhere else. */
    method AddEntity(e: Entity) returns (r: Outcome)
      requires Valid()
      modifies if ENTITY in lookup && lookup[ENTITY] < |nodes| then {nodes[lookup[ENTITY]]} else {}
      ensures Valid()
      ensures r.Pass? <==> old(View().HasComponent(ENTITY))
      ensures r.Fail? ==> r.error == NotRegistered && View() == old(View())
      ensures r.Pass? ==> View() == old(View()).PushAt(lookup[ENTITY], Ent(e))
    {
      var nr := Find(ENTITY);
      if nr.Err? {
        return Fail(nr.error);
      }
      PushAt(lookup[ENTITY], Ent(e));
      r := Pass;
    }

    /** `push` on the node at index `cid` of the node list (the node a
        `find` returned): only that column grows. */
    method PushAt(cid: nat, v: Value)
      requires Valid() && cid < |nodes| && TypeOf(v) == View().columns[cid].tag
      modifies nodes[cid]
      ensures Valid() && View() == old(View()).PushAt(cid, v)
    {
      ghost var s0 := View();
      var o := nodes[cid].Push(v);
      ViewOfSet(lookup, nodes, cid, s0);
    }

    /** `add_system`: append to the system list. */
    method AddSystem(sys: System)
      requires Valid() && sys.WellTyped()
      modifies this`systems
      ensures Valid() && systems == old(systems) + [sys]
    {
      systems := systems + [sys];
    }

    /** Write `v` through `r`. */
    method WriteRef(r: Ref, v: Value)
      requires Valid() && View().RefValid(r) && TypeOf(v) == View().columns[r.cid].tag
      modifies nodes[r.cid]
      ensures Valid() && unchanged(this) && View() == old(View()).Write(r, v)
    {
      ghost var s0 := View();
      var o := nodes[r.cid].Set(r.slot, v);
      ViewOfSet(lookup, nodes, r.cid, s0);
    }

    /** One call of `run`: read the tuple, run, write back through its pointers. */
    method RunTuple(refs: seq<Ref>, sys: System)
      requires Valid() && sys.WellTyped() && View().Addressable(refs)
      modifies nodes
      ensures Valid() && unchanged(this) && View() == old(View()).RunTuple(refs, sys)
    {
      var vals := View().Read(refs);
      var outs := sys.run(vals);
      assert SameTypes(vals, outs);
      WriteAll(refs, outs);
    }

    /** Write `outs[i]` through `refs[i]`, for `i` in increasing order. */
    method WriteAll(refs: seq<Ref>, outs: seq<Value>)
      requires Valid() && |refs| == |outs|
      requires forall i :: 0 <= i < |refs| ==> View().RefValid(refs[i]) && TypeOf(outs[i]) == View().columns[refs[i].cid].tag
      modifies nodes
      ensures Valid() && unchanged(this) && View() == old(View()).WriteAll(refs, outs)
      decreases |refs|
    {
      if refs == [] {
        return;
      }
      var n := |refs| - 1;
      ghost var s0 := View();
      assert forall i :: 0 <= i < n ==> refs[..n][i] == refs[i] && outs[..n][i] == outs[i];
      WriteAll(refs[..n], outs[..n]);
      KeepsShape(s0, View(), refs[n]);
      WriteRef(refs[n], outs[n]);
    }

    /** A system's `exec`: fetch, then `run` on every tuple. */
    method Exec(sys: System) returns (r: Outcome)
      requires Valid() && sys.WellTyped()
      modifies nodes
      ensures Valid() && unchanged(this)
      ensures (View(), r) == old(View()).Step(sys)
    {
      var fr := Fetch(sys.types);
      if fr.Err? {
        return Fail(fr.error);
      }
      ghost var s0 := View();
      RunTuples(fr.value, sys);
      ExecRan(s0, sys, View());
      r := Pass;
    }

    /** The loop of `exec`: `run` on every fetched tuple, in order. */
    method RunTuples(tuples: seq<seq<Ref>>, sys: System)
      requires Valid() && sys.WellTyped()
      requires forall k :: 0 <= k < |tuples| ==> View().Addressable(tuples[k])
      modifies nodes
      ensures Valid() && unchanged(this) && View() == old(View()).RunTuples(tuples, sys)
    {
      ghost var s0 := View();
      for j := 0 to |tuples|
        invariant Valid() && unchanged(this)
        invariant View() == s0.RunTuples(tuples[..j], sys)
      {
        ghost var before := View();
        RunTuplesStep(s0, tuples, sys, j, before);
        RunTuple(tuples[j], sys);
      }
      WholeSlice(tuples);
    }

    /** `dispatch`: run every registered system once, in insertion order. */
    method Dispatch() returns (r: Outcome)
      requires Valid()
      modifies nodes
      ensures Valid()
      ensures (View(), r) == old(View()).Dispatch(systems)
    {
      ghost var s0 := View();
      for i := 0 to |systems|
        invariant Valid() && unchanged(this)
        invariant (View(), Pass) == s0.Dispatch(systems[..i])
      {
        ghost var before := View();
        var o := Exec(systems[i]);
        DispatchStep(s0, systems, i, before, View(), o);
        if o.Fail? {
          return o;
        }
      }
      WholeSlice(systems);
      r := Pass;
    }
  }
}
