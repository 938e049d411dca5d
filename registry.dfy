/** The type-erased column (`RegistryNode`) and the singly linked list of
    columns (`Registry`). The erased payload is a type tag plus a sequence
    of values; every access compares the caller's tag with the stored one. */
module Registries {
  import opened Errors
  import opened Values

  /** The value held by one node: its type tag and its elements. */
  datatype Column = Column(tag: nat, data: seq<Value>)
  {
    /** Every element has the column's type. */
    ghost predicate Typed() {
      forall k :: 0 <= k < |data| ==> TypeOf(data[k]) == tag
    }

    /** `check_type<T>`: a passing check means every element is a `T`. */
    function CheckType(t: TypeTag): (r: bool)
      ensures r <==> t == tag
      ensures r && Typed() ==> forall k :: 0 <= k < |data| ==> TypeOf(data[k]) == t
    {
      t == tag
    }

    /** `get_array<T>`: the whole array, or a mismatch error. */
    function GetArray(t: TypeTag): (r: Result<seq<Value>>)
      ensures r.Ok? <==> t == tag
      ensures r.Err? ==> r.error == TypeMismatch
      ensures r.Ok? ==> r.value == data
    {
      if !CheckType(t) then Err(TypeMismatch) else Ok(data)
    }

    /** `size<T>`: the number of elements, after the type check. */
    function Size(t: TypeTag): (r: Result<nat>)
      ensures r.Ok? <==> t == tag
      ensures r.Err? ==> r.error == TypeMismatch
      ensures r.Ok? ==> r.value == |data|
    {
      if !CheckType(t) then Err(TypeMismatch) else Ok(|data|)
    }

    /** `push(t)`: append `v` at the end when its type matches. */
    function Push(v: Value): (r: Result<Column>)
      ensures r.Ok? <==> TypeOf(v) == tag
      ensures r.Err? ==> r.error == TypeMismatch
      ensures r.Ok? ==> r.value.tag == tag && |r.value.data| == |data| + 1
      ensures r.Ok? ==> r.value.data[|data|] == v
      ensures r.Ok? ==> forall k :: 0 <= k < |data| ==> r.value.data[k] == data[k]
      ensures r.Ok? && Typed() ==> r.value.Typed()
    {
      if !CheckType(TypeOf(v)) then Err(TypeMismatch) else Ok(Column(tag, data + [v]))
    }

    /** `get(i)`: the `i`-th element; mismatch is checked before the bound. */
    function Get(t: TypeTag, i: nat): (r: Result<Value>)
      ensures r.Ok? <==> t == tag && i < |data|
      ensures r.Err? ==> r.error == (if t != tag then TypeMismatch else OutOfRange)
      ensures r.Ok? ==> r.value == data[i]
      ensures r.Ok? && Typed() ==> TypeOf(r.value) == t
    {
      if !CheckType(t) then Err(TypeMismatch)
      else if i < |data| then Ok(data[i])
      else Err(OutOfRange)
    }

    /** `set(i, t)`: replace only the `i`-th element. */
    function Set(i: nat, v: Value): (r: Result<Column>)
      ensures r.Ok? <==> TypeOf(v) == tag && i < |data|
      ensures r.Err? ==> r.error == (if TypeOf(v) != tag then TypeMismatch else OutOfRange)
      ensures r.Ok? ==> r.value.tag == tag && |r.value.data| == |data| && r.value.data[i] == v
      ensures r.Ok? ==> forall k :: 0 <= k < |data| && k != i ==> r.value.data[k] == data[k]
      ensures r.Ok? && Typed() ==> r.value.Typed()
    {
      if !CheckType(TypeOf(v)) then Err(TypeMismatch)
      else if i < |data| then Ok(Column(tag, data[i := v]))
      else Err(OutOfRange)
    }
  }

  /** `create<T>`: a column tagged with `t` holding an empty array. */
  function NewColumn(t: TypeTag): (c: Column)
    ensures c.CheckType(t) && c.Typed()
    ensures forall u: TypeTag :: u != t ==> c.GetArray(u) == Err(TypeMismatch)
    ensures c.GetArray(t) == Ok([])
  {
    Column(t, [])
  }

  /** A default-constructed column has the reserved tag, so every typed access fails. */
  lemma DefaultColumnRejectsAll(t: TypeTag, i: nat, v: Value)
    ensures Column(NO_TYPE, []).GetArray(t) == Err(TypeMismatch)
    ensures Column(NO_TYPE, []).Get(t, i) == Err(TypeMismatch)
    ensures Column(NO_TYPE, []).Push(v) == Err(TypeMismatch)
    ensures Column(NO_TYPE, []).Set(i, v) == Err(TypeMismatch)
  {
  }

  /** One type-erased column; `next` links it into a `Registry`. */
  class RegistryNode {
    var tag: nat
    var data: seq<Value>
    var next: RegistryNode?

    function View(): Column
      reads this
    {
      Column(tag, data)
    }

    /** `RegistryNode()`: tag 0, no data, no successor. */
    constructor ()
      ensures View() == Column(NO_TYPE, []) && next == null
    {
      tag := NO_TYPE;
      data := [];
      next := null;
    }

    /** `create<T>`. */
    static method Create(t: TypeTag) returns (n: RegistryNode)
      ensures fresh(n) && n.View() == NewColumn(t) && n.next == null
    {
      n := new RegistryNode();
      n.data := [];
      n.tag := t;
    }

    /** `push(t)`: throws on a mismatch and leaves the column as it was. */
    method Push(v: Value) returns (r: Outcome)
      modifies this`data
      ensures old(View()).Push(v).Ok? ==> r == Pass && View() == old(View()).Push(v).value
      ensures old(View()).Push(v).Err? ==> r == Fail(TypeMismatch) && View() == old(View())
    {
      if tag != TypeOf(v) {
        return Fail(TypeMismatch);
      }
      data := data + [v];
      r := Pass;
    }

    /** `set(i, t)`: throws on a mismatch or a bad index and leaves the column as it was. */
    method Set(i: nat, v: Value) returns (r: Outcome)
      modifies this`data
      ensures old(View()).Set(i, v).Ok? ==> r == Pass && View() == old(View()).Set(i, v).value
      ensures old(View()).Set(i, v).Err? ==> r == Fail(old(View()).Set(i, v).error) && View() == old(View())
    {
      if tag != TypeOf(v) {
        return Fail(TypeMismatch);
      }
      if i >= |data| {
        return Fail(OutOfRange);
      }
      data := data[i := v];
      r := Pass;
    }
  }

  /** A singly linked list of columns; `Nodes` is the list in order. */
  class Registry {
    var head: RegistryNode?
    var tail: RegistryNode?
    ghost var Nodes: seq<RegistryNode>
    ghost var Repr: set<object>

    ghost predicate Valid()
      reads this, Repr
    {
      && this in Repr
      && (forall i :: 0 <= i < |Nodes| ==> Nodes[i] in Repr)
      && (forall i, j :: 0 <= i < j < |Nodes| ==> Nodes[i] != Nodes[j])
      && (if Nodes == [] then head == null && tail == null
          else head == Nodes[0] && tail == Nodes[|Nodes| - 1])
      && (forall i :: 0 <= i < |Nodes| - 1 ==> Nodes[i].next == Nodes[i + 1])
      && (Nodes != [] ==> Nodes[|Nodes| - 1].next == null)
    }

    /** The tags of the columns, in list order. */
    ghost function Tags(): seq<nat>
      reads this, Nodes
    {
      seq(|Nodes|, i reads this, Nodes requires 0 <= i < |Nodes| => Nodes[i].tag)
    }

    /** `Registry()`: an empty list. */
    constructor ()
      ensures Valid() && fresh(Repr) && Nodes == []
    {
      head, tail := null, null;
      Nodes, Repr := [], {this};
    }

    /** `Registry(Registry&&)`: take over `r`'s list and leave `r` empty. */
    constructor Move(r: Registry)
      requires r.Valid()
      modifies r
      ensures Valid() && Nodes == old(r.Nodes) && Repr == old(r.Repr) - {r} + {this}
      ensures head == old(r.head) && tail == old(r.tail)
      ensures r.Valid() && r.Nodes == [] && r.head == null && r.tail == null
    {
      ghost var ns := r.Nodes;
      head, tail := r.head, r.tail;
      Nodes, Repr := r.Nodes, r.Repr - {r} + {this};
      new;
      r.head, r.tail := null, null;
      r.Nodes, r.Repr := [], {r};
      assert forall i :: 0 <= i < |ns| ==> ns[i].next == old(ns[i].next);
    }

    /** `register_component<T>`: append a fresh `T` column at the tail. */
    method RegisterComponent(t: TypeTag)
      requires Valid()
      modifies Repr
      ensures Valid() && fresh(Repr - old(Repr))
      ensures |Nodes| == |old(Nodes)| + 1 && Nodes[..|old(Nodes)|] == old(Nodes)
      ensures fresh(Nodes[|old(Nodes)|]) && Nodes[|old(Nodes)|].View() == NewColumn(t)
      ensures tail == Nodes[|old(Nodes)|]
      ensures old(Nodes) == [] ==> head == Nodes[0] && tail == Nodes[0]
      ensures forall i :: 0 <= i < |old(Nodes)| ==> Nodes[i].View() == old(Nodes[i].View())
    {
      var temp := RegistryNode.Create(t);
      if head == null {
        head := temp;
      } else {
        tail.next := temp;
      }
      tail := temp;
      Nodes, Repr := Nodes + [temp], Repr + {temp};
      assert forall i :: 0 <= i < |old(Nodes)| ==> Nodes[i] == old(Nodes)[i];
    }

    /** `register_entities` as written: prepends an `Entity` column but never
        sets `tail`, so on an empty list `tail` stays null while `head` does not. */
    method RegisterEntitiesAsWritten()
      requires Valid()
      modifies this
      ensures Nodes == [head] + old(Nodes) && fresh(head) && head.View() == NewColumn(ENTITY)
      ensures tail == old(tail)
      ensures old(Nodes) == [] ==> head != null && tail == null && !Valid()
      ensures old(Nodes) != [] ==> Valid()
    {
      var temp := RegistryNode.Create(ENTITY);
      temp.next := head;
      head := temp;
      Nodes, Repr := [temp] + Nodes, Repr + {temp};
      assert forall i :: 1 <= i < |Nodes| ==> Nodes[i] == old(Nodes)[i - 1];
    }

    /** `register_entities`, with `tail` also set when the list was empty:
        prepend an `Entity` column so that it becomes the head. */
    method RegisterEntities()
      requires Valid()
      modifies this
      ensures Valid() && fresh(Repr - old(Repr))
      ensures |Nodes| == |old(Nodes)| + 1 && Nodes[1..] == old(Nodes)
      ensures fresh(head) && head == Nodes[0] && head.View() == NewColumn(ENTITY)
      ensures forall i :: 0 <= i < |old(Nodes)| ==> old(Nodes)[i].View() == old(Nodes[i].View())
    {
      var temp := RegistryNode.Create(ENTITY);
      temp.next := head;
      if head == null {
        tail := temp;
      }
      head := temp;
      Nodes, Repr := [temp] + Nodes, Repr + {temp};
      assert forall i :: 1 <= i < |Nodes| ==> Nodes[i] == old(Nodes)[i - 1];
    }

    /** `iter_to<T>`: walk from the head to the first column tagged `t`;
        null stands for `end()`. */
    method IterTo(t: TypeTag) returns (r: RegistryNode?)
      requires Valid()
      ensures r == null <==> t !in Tags()
      ensures r != null ==> exists i :: 0 <= i < |Nodes| && Nodes[i] == r && FirstIndex(Tags(), t) == i
    {
      var cur := head;
      ghost var k := 0;
      while cur != null
        invariant 0 <= k <= |Nodes|
        invariant cur == if k < |Nodes| then Nodes[k] else null
        invariant forall j :: 0 <= j < k ==> Nodes[j].tag != t
        decreases |Nodes| - k
      {
        if cur.tag == t {
          break;
        }
        assert cur == Nodes[k];
        cur := cur.next;
        k := k + 1;
      }
      r := cur;
      assert forall j :: 0 <= j < |Nodes| ==> Tags()[j] == Nodes[j].tag;
      if r != null {
        assert Tags()[k] == t;
        assert FirstIndex(Tags(), t) == k;
      }
    }
  }

  /** The position of the first occurrence of `t` in `tags`. */
  function FirstIndex(tags: seq<nat>, t: nat): (i: nat)
    requires t in tags
    ensures i < |tags| && tags[i] == t
    ensures forall j :: 0 <= j < i ==> tags[j] != t
  {
    if tags[0] == t then 0 else 1 + FirstIndex(tags[1..], t)
  }
}
