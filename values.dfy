/** The closed universe of component values that a type-erased column can
    hold, and the run-time type tag of each. */
module Values {
  import opened Entities

  /** A run-time type identifier; 0 is reserved for a node that holds no type. */
  type TypeTag = t: nat | t != 0 witness 1

  const NO_TYPE: nat := 0
  const ENTITY: TypeTag := 1
  const POSITION: TypeTag := 2
  const VELOCITY: TypeTag := 3

  /** `Position` and `Velocity` are the test program's components; `User`
      stands for any other component type of the host program. */
  datatype Value =
    | Ent(entity: Entity)
    | Position(x: int, y: int)
    | Velocity(dx: int, dy: int)
    | User(kind: nat, payload: int)

  /** The tag of the value's type; distinct types have distinct tags. */
  function TypeOf(v: Value): (t: TypeTag)
    ensures t == ENTITY <==> v.Ent?
    ensures t == POSITION <==> v.Position?
    ensures t == VELOCITY <==> v.Velocity?
    ensures v.User? ==> t == 4 + v.kind
  {
    match v
    case Ent(_) => ENTITY
    case Position(_, _) => POSITION
    case Velocity(_, _) => VELOCITY
    case User(k, _) => 4 + k
  }
}
