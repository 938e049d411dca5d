# A verified model of the cpp-secs storage core

This project models the storage core of a small C++ entity-component store in Dafny.

- **Columns.** Each component type gets one type-tagged column (`RegistryNode`), a growable array behind a type-erased handle.
- **The world.** A `World` owns its columns in registration order, a `type -> column index` map, an entity-id counter and the systems it runs.
- **Entities.** An entity is itself a component and lives in the `Entity` column. The source's `Entity` holds only an id and a component bit-set. Its builders and `fetch` call `add_component`, `get_component` and `has_component`, which the source does not define. The model gives the entity a `cid -> slot` map besides the bit-set, so that these operations have the meaning their call sites rely on.
- **Builders.** `WorldBuilder` registers the user's types and then `Entity` last. `EntityBuilder` draws an id, pushes each component while recording its slot, and finally appends the entity.
- **Fetch.** `fetch<Ts...>` builds the bit-mask of `Ts`. It then walks the `Entity` column and yields a tuple of pointers for every entity whose bit-set covers the mask.
- **Systems.** A system's `exec` runs `run` on every fetched tuple. `dispatch` calls every system's `exec` in insertion order.
- **Test program.** The model includes the friction update of the movement system and the two entity populations of the test program.

Modules follow the source files:

| module | file | contents |
|---|---|---|
| `Errors` | `errors.dfy` | the exceptions as `Error` values, plus the `Result`/`Outcome` wrappers |
| `Values` | `values.dfy` | the closed universe of component values and their type tags |
| `Entities` | `entities.dfy` | the entity record |
| `Registries` | `registry.dfy` | the `Column` value, the `RegistryNode` class and the linked `Registry` class |
| `Worlds` | `world.dfy` | `Store` (the world's contents as a value), with every pure lookup and the specification of fetch, exec and dispatch; the `World` class, whose methods change the counter, the map, the node list and the nodes in place |
| `WorldBuilders` | `world_builder.dfy` | `WorldBuilder`, `create` and the registration chain |
| `EntityBuilders` | `entity_builder.dfy` | `EntityBuilder` and the slot bookkeeping invariant |
| `Movement` | `movement.dfy` | `MovementSystem::run` |
| `Scenarios` | `scenarios.dfy` | the test program's two populations, and the two double registrations |

Type identity (`typeid(T).hash_code()`) becomes a `TypeTag`, a non-zero natural number.

- `Entity`, `Position` and `Velocity` have the tags 1, 2 and 3.
- Any other host type is `User(k)`, with tag `4 + k`.
- Tag 0 is the "no type" of a default-constructed node.

Exceptions become `Err`/`Fail` results carrying the thrown error. A pointer into a column becomes a `Ref(cid, slot)`.

A system is a pair:

- `types`, the component types it fetches;
- `run`, a function from the values behind a tuple's pointers to the values written back through them.

## Model

| member | source | states |
|---|---|---|
| Values.TypeOf | include/ecs/registry.hpp:53-59 | the `Entity`, `Position` and `Velocity` tags are taken by exactly those values, and `User(k)` gets tag `4 + k`, so distinct types have distinct tags |
| Entities.NewEntity | include/ecs/entity.hpp:20-24 | the constructed entity has the given id and exactly `n` bits, owns nothing and records no slot |
| Entities.Entity.AddComponent | include/ecs/world/entity_builder.hpp:54 | keeps id and bit count; the owned set gains exactly `cid`; `cid`'s slot is now `slot` and every other slot is unchanged; consistency is preserved |
| Entities.Entity.GetComponent | include/ecs/world/world_class.hpp:144 | a slot is returned exactly for the component ids that have one, and in a consistent entity those ids are owned |
| Entities.Entity.HasComponents | include/ecs/world/world_class.hpp:183 | on a consistent entity, true exactly when every component the mask names has a recorded slot, so each `get` the fetch then makes finds one |
| Entities.HasComponentsSubset | include/ecs/world/world_class.hpp:183 | true exactly when the set bits of the mask are a subset of the owned bits |
| Registries.Column.CheckType | include/ecs/registry.hpp:57-60 | true iff the tag equals the stored tag; a passing check means every element has that type |
| Registries.Column.GetArray | include/ecs/registry.hpp:62-66 | the array on a matching tag, `TypeMismatch` otherwise |
| Registries.Column.Size | include/ecs/world/entity_builder.hpp:54 | the element count on a matching tag, `TypeMismatch` otherwise |
| Registries.Column.Push | include/ecs/registry.hpp:68-72 | on a matching type: one element more, the new one at the end, every earlier element unchanged; on a mismatch: `TypeMismatch` |
| Registries.Column.Get | include/ecs/registry.hpp:74-78 | the `i`-th element iff the tag matches and `i` is in range; the tag is checked before the bound (`TypeMismatch`, then `OutOfRange`) |
| Registries.Column.Set | include/ecs/registry.hpp:80-84 | replaces only the `i`-th element and keeps the length; errors as for `Get` |
| Registries.NewColumn | include/ecs/registry.hpp:48-55 | `create<T>` yields a column that accepts `T`, rejects every other type and holds an empty array |
| Registries.DefaultColumnRejectsAll | include/ecs/registry.hpp:36-41 | a default node (tag 0, no data) rejects every typed access |
| Registries.RegistryNode.constructor | include/ecs/registry.hpp:36-41 | tag 0, no data, no successor |
| Registries.RegistryNode.Create | include/ecs/registry.hpp:48-55 | a fresh node holding `NewColumn(t)` |
| Registries.RegistryNode.Push | include/ecs/registry.hpp:68-72 | the node's new contents are `Column.Push`'s result; on a mismatch it fails and the contents are unchanged |
| Registries.RegistryNode.Set | include/ecs/registry.hpp:80-84 | the node's new contents are `Column.Set`'s result; on an error it fails with that error and the contents are unchanged |
| Registries.Registry.constructor | include/ecs/registry.hpp:131-135 | an empty list |
| Registries.Registry.Move | include/ecs/registry.hpp:146-152 | the new registry takes over the head, the tail and the node list; the source is left empty |
| Registries.Registry.RegisterComponent | include/ecs/registry.hpp:165-175 | a fresh `t` node is appended at the tail and the existing nodes keep their order and contents; on an empty list it becomes both head and tail |
| Registries.Registry.RegisterEntitiesAsWritten | include/ecs/registry.hpp:177-182 | a fresh `Entity` node becomes the head; `tail` is not touched, so on an empty list the result is not a well-formed list |
| Registries.Registry.RegisterEntities | include/ecs/registry.hpp:177-182 | a fresh `Entity` node becomes the head and the old nodes follow it unchanged; the list stays well formed |
| Registries.Registry.IterTo | include/ecs/registry.hpp:154-163 | null (`end()`) iff no node has tag `t`; otherwise the first node in list order with that tag |
| Registries.FirstIndex | include/ecs/registry.hpp:157-161 | the first position holding `t` |
| Worlds.Matching | include/ecs/world/world_class.hpp:181-184 | exactly the indices of the entities whose bit-set covers the mask, strictly increasing |
| Worlds.Store.HasComponent | include/ecs/world/world_class.hpp:225-229 | true iff some column holds the type |
| Worlds.Store.GetCid | include/ecs/world/world_class.hpp:113-119 | `NotRegistered` for an unknown type; otherwise the one column index whose column holds the type |
| Worlds.Store.CountComponents | include/ecs/world/world_class.hpp:126-129 | the number of columns, which equals the number of registered types |
| Worlds.Store.Mask | include/ecs/world/world_class.hpp:156-162 | `NotRegistered` if any type is unknown; otherwise `count_components` bits, with bit `i` set iff column `i` holds one of the types |
| Worlds.Store.Register | include/ecs/world/world_class.hpp:236-243 | the new type gets column index `count_components()`, every other type keeps its index, and an empty column is appended |
| Worlds.Store.Get | include/ecs/world/world_class.hpp:140-148 | `NotRegistered` for an unknown type and `OutOfRange` for a missing or out-of-range slot; otherwise a pointer to the type's column at the slot the entity records, addressing a value of that type |
| Worlds.Store.Entities | include/ecs/world/world_class.hpp:180-181 | the entities stored in the `Entity` column, in column order |
| Worlds.Store.Tuple | include/ecs/world/world_class.hpp:185 | succeeds iff every `get<T>` succeeds, and then holds exactly their pointers |
| Worlds.Store.FetchOver | include/ecs/world/world_class.hpp:181-188 | every yielded tuple's pointers address elements |
| Worlds.Store.Fetch | include/ecs/world/world_class.hpp:175-190 | `NotRegistered` when `Entity` or a requested type is unknown; every yielded pointer addresses an element |
| Worlds.Store.PushAt | include/ecs/world/entity_builder.hpp:53-55 | only column `cid` changes, by the new value at its end |
| Worlds.Store.Write | app/test.cpp:47-62 | the pointed-to element becomes `v`, every other element is unchanged, and the shape is unchanged |
| Worlds.Store.Read | app/test.cpp:44-45 | the values behind a tuple's pointers, each of its column's type |
| Worlds.Store.WriteAll | app/test.cpp:47-62 | writing back `run`'s results through a tuple's pointers in order keeps the contents consistent and the shape unchanged; what lands where is stated by `WriteAllLands` and `WriteAllFrame` |
| Worlds.Store.RunTuple | include/ecs/world.hpp:258 | one `run` on one tuple keeps the contents consistent and the shape unchanged; its effect is stated by `RunTupleEffect` |
| Worlds.Store.RunTuples | include/ecs/world.hpp:257-258 | running a system tuple by tuple keeps the contents consistent and the shape unchanged |
| Worlds.Store.Exec | include/ecs/world.hpp:254-259 | fails exactly when the fetch fails, with its error; otherwise consistent contents of the same shape |
| Worlds.Store.Step | include/ecs/world/world_class.hpp:295 | a failed `exec` leaves the contents unchanged; a passing one yields `Exec`'s contents |
| Worlds.Store.Dispatch | include/ecs/world/world_class.hpp:292-296 | the contents stay consistent and keep their shape |
| Worlds.FetchOverFails | include/ecs/world/world_class.hpp:181-188 | the fetch loop fails iff some covering entity's tuple fails |
| Worlds.FetchOverExact | include/ecs/world/world_class.hpp:181-188 | the loop yields exactly one tuple per covering entity, in entity order |
| Worlds.MaskCovers | include/ecs/world/world_class.hpp:156-162 | an entity covers the mask of `ts` iff it owns the column of every type in `ts` |
| Worlds.FetchExact | include/ecs/world/world_class.hpp:175-190 | a successful fetch yields, in `Entity`-column order, one tuple for each entity owning every requested type and none for the others; each tuple holds that entity's `get<T>` pointers |
| Worlds.FetchFailsOnlyUnregistered | include/ecs/world/world_class.hpp:175-190 | with consistent entity bookkeeping, fetch fails iff `Entity` or a requested type is unregistered |
| Worlds.RegisterKeepsValid | include/ecs/world/world_class.hpp:241-242 | registering a new type keeps the map and the columns in step |
| Worlds.FetchOverFailureSticks | include/ecs/world/world_class.hpp:185 | once a `get` in the loop has thrown, the fetch ends with that error |
| Worlds.WriteAllFrame | app/test.cpp:47-62 | writing back through a tuple leaves every element the tuple does not point to with its old value |
| Worlds.WriteAllLands | app/test.cpp:47-62 | through a tuple without repeated pointers, pointer `i` ends up holding the `i`-th value written |
| Worlds.RunTupleEffect | include/ecs/world.hpp:258 | one `run` on a tuple without repeated pointers: pointer `i` holds the `i`-th result of `run` on the values read, and every element outside the tuple keeps its value |
| Worlds.RunTuplesFrame | include/ecs/world.hpp:257-258 | running a system over a list of tuples leaves every element that no tuple points to with its old value |
| Worlds.ExecFrame | include/ecs/world.hpp:254-259 | an `exec` whose fetch succeeded passes and leaves every element outside the fetched tuples, such as the components of an entity the fetch does not match, with its old value |
| Worlds.ExecRan | include/ecs/world.hpp:254-259 | an `exec` whose fetch succeeded passes, with the contents left by running on every fetched tuple |
| Worlds.DispatchFailureSticks | include/ecs/world/world_class.hpp:292-296 | after a failing `exec` no later system runs |
| Worlds.DispatchStep | include/ecs/world/world_class.hpp:294-295 | dispatching one system more applies exactly that system's `exec` |
| Worlds.ViewOf | include/ecs/world/world_class.hpp:45-46 | the world's contents are its map and its nodes' contents, in node order |
| Worlds.Collect | include/ecs/world/world_class.hpp:178-189 | the imperative fetch loop computes `FetchOver` |
| Worlds.AppendRegisters | include/ecs/world/world_class.hpp:241-242 | appending an empty `t` node under the next index is `Register(t)` on the contents |
| Worlds.World.constructor | include/ecs/world/world_class.hpp:59 | no columns, an empty map and no systems; the id counter is arbitrary |
| Worlds.World.GetEid | include/ecs/world/world_class.hpp:100-103 | returns the counter and increments it |
| Worlds.World.RegisterComponent | include/ecs/world/world_class.hpp:236-243 | a known type fails with `AlreadyRegistered` and changes nothing; otherwise the contents become `Register(t)` and a fresh node is appended |
| Worlds.World.AppendColumn | include/ecs/world/world_class.hpp:241-242 | the contents become `Register(t)` and the old nodes are kept |
| Worlds.World.Find | include/ecs/world/world_class.hpp:266-273 | `NotRegistered` for an unknown type; otherwise the node at index `get_cid<T>()`, which holds `T` |
| Worlds.World.Fetch | include/ecs/world/world_class.hpp:175-190 | the result equals `Store.Fetch` on the current contents |
| Worlds.World.AddEntity | include/ecs/world/world_class.hpp:199-203 | `NotRegistered` if `Entity` is unknown; otherwise the entity is appended to the `Entity` column and nothing else changes |
| Worlds.World.PushAt | include/ecs/world/entity_builder.hpp:55 | a push on one node grows that column only |
| Worlds.World.AddSystem | include/ecs/world/world_class.hpp:213-216 | the system is appended to the system list |
| Worlds.World.WriteRef | app/test.cpp:47-62 | a write through a pointer is `Store.Write` |
| Worlds.World.RunTuple | include/ecs/world.hpp:258 | one `run` reads the tuple, runs, writes back, and equals `Store.RunTuple` |
| Worlds.World.WriteAll | app/test.cpp:47-62 | writing through a tuple's pointers in order equals `Store.WriteAll` |
| Worlds.World.Exec | include/ecs/world.hpp:254-259 | the new contents and the outcome equal `Store.Step` |
| Worlds.World.RunTuples | include/ecs/world.hpp:257-258 | the loop of `exec` equals `Store.RunTuples` |
| Worlds.World.Dispatch | include/ecs/world/world_class.hpp:292-296 | the new contents and the outcome equal `Store.Dispatch` over the registered systems, in insertion order |
| WorldBuilders.RegisterAll | include/ecs/world/world_builder.hpp:38-43 | registering a sequence of types yields consistent contents |
| WorldBuilders.RegisterAllExact | include/ecs/world/world_class.hpp:239-242 | registration succeeds iff no type repeats; a repeat gives `AlreadyRegistered`; otherwise the `i`-th type gets column index `i` and an empty column, and no other type is known |
| WorldBuilders.BuiltWorld | include/ecs/world/world_builder.hpp:50-54 | building succeeds iff the user types are distinct and do not include `Entity`; then `Entity`'s index is the number of user types, there are no entities, and the bookkeeping holds |
| WorldBuilders.WorldBuilder.Create | include/ecs/world/world_builder.hpp:61-65 | a builder around a world with no columns and no systems |
| WorldBuilders.WorldBuilder.WithComponent | include/ecs/world/world_builder.hpp:38-43 | a repeated type fails with `AlreadyRegistered` and changes nothing; otherwise the type is registered next |
| WorldBuilders.WorldBuilder.WithEach | include/ecs/world/world_builder.hpp:38-43 | a chain of `with_component` calls fails iff a type repeats |
| WorldBuilders.WorldBuilder.Build | include/ecs/world/world_builder.hpp:50-54 | fails with `AlreadyRegistered` iff `Entity` was registered before; otherwise `Entity` gets the index after all user types and the bookkeeping holds |
| WorldBuilders.CreateWorld | include/ecs/world/world_builder.hpp:38-65 | `create()`, then `with_component` for each type, then `build()`: succeeds iff the types are distinct and exclude `Entity`, and yields a fresh world with the registrations of the types followed by `Entity` and no systems |
| EntityBuilders.PushKeepsSlots | include/ecs/world/entity_builder.hpp:55 | a push keeps every recorded slot in range |
| EntityBuilders.PushKeepsBookkept | include/ecs/world/entity_builder.hpp:53-55 | pushing a non-entity component keeps the entity bookkeeping |
| EntityBuilders.PushEntities | include/ecs/world/world_class.hpp:199-203 | `add_entity` appends the entity to the entity list |
| EntityBuilders.AddKeepsBookkept | include/ecs/world/entity_builder.hpp:63-68 | appending an entity that records its own slot keeps the bookkeeping |
| EntityBuilders.PushKeepsReady | include/ecs/world/entity_builder.hpp:50-57 | recording the column size as the slot and then pushing keeps every recorded slot addressing the value pushed for it |
| EntityBuilders.ReadyAddresses | include/ecs/world/entity_builder.hpp:50-57 | in a consistent builder, `get<T>` yields the recorded slot, and that slot holds the value pushed for `T` |
| EntityBuilders.EntityBuilder.constructor | include/ecs/world/entity_builder.hpp:38-41 | a fresh id from the world's counter and one clear bit per registered type |
| EntityBuilders.EntityBuilder.With | include/ecs/world/entity_builder.hpp:50-57 | an unregistered type fails with `NotRegistered` before anything changes; otherwise the slot recorded is the column size before the push, only that column grows, the builder stays consistent, and pushing a non-entity value keeps the entity bookkeeping |
| EntityBuilders.EntityBuilder.Push | include/ecs/world/entity_builder.hpp:54-55 | records the slot and pushes, keeping the builder consistent |
| EntityBuilders.EntityBuilder.Record | include/ecs/world/entity_builder.hpp:54 | `add_component` on the builder's entity; the world is untouched |
| EntityBuilders.EntityBuilder.Build | include/ecs/world/entity_builder.hpp:63-68 | `NotRegistered` if `Entity` is unknown; otherwise the entity records the `Entity` column size as its own slot and is appended there, and the bookkeeping is preserved |
| EntityBuilders.EntityBuilder.Append | include/ecs/world/entity_builder.hpp:66-67 | records the slot and calls `add_entity` |
| EntityBuilders.BuildEntity | include/ecs/world/entity_builder.hpp:75-79 | a builder with the next id; the counter advances by one, so successive entities get distinct, increasing ids |
| Movement.Friction | app/test.cpp:50-55 | subtract `f` at or above `f`, add `f` at or below `-f`, otherwise zero |
| Movement.FrictionSlows | app/test.cpp:50-62 | with non-negative friction a velocity never changes sign, and its magnitude drops by `f` or to zero |
| Movement.Slowed | app/test.cpp:50-62 | repeated friction never increases the magnitude |
| Movement.ComesToRest | app/test.cpp:50-62 | with positive friction, `abs(d)` steps bring a velocity to zero |
| Movement.StaysAtRest | app/test.cpp:54-55 | a velocity at zero stays at zero |
| Movement.MovementSystem.Run | app/test.cpp:42-63 | the position moves by the velocity it had before the update; each velocity axis then gets the friction rule; the types are kept |
| Movement.MovementSystem.AsSystem | app/test.cpp:25 | a system over `(Position, Velocity)` that keeps the types |
| Movement.RunAt | app/test.cpp:42-63 | the in-place update through the two pointers gives the contents `Store.RunTuple` specifies for `Run` |
| Movement.RunAtTypes | app/test.cpp:44-45 | the two pointers of a `(Position, Velocity)` tuple reach a position and a velocity |
| Movement.RunAtSpec | app/test.cpp:47-62 | `run` on a tuple writes the moved position, then the slowed velocity |
| Scenarios.RegisterPositionTwice | include/ecs/world/world_builder.hpp:41 | registering `Position` twice fails with `AlreadyRegistered` |
| Scenarios.RegisterEntityBeforeBuild | include/ecs/world/world_builder.hpp:52 | `with_component<Entity>()` before `build` makes `build` fail with `AlreadyRegistered` |
| Scenarios.MatchingEvens | app/test.cpp:113-120 | when exactly the even entities cover the mask, the even indices match |
| Scenarios.MatchingAll | app/test.cpp:152-153 | when every entity covers the mask, every index matches |
| Scenarios.BuiltMover | app/test.cpp:115-119 | the entity built for index `i` owns `Position` at slot `i`, `Velocity` at slot `i/2` when `i` is even, and itself at slot `i` |
| Scenarios.MoversBookkept | app/test.cpp:113-120 | the first population keeps the entity bookkeeping |
| Scenarios.AddMover | app/test.cpp:115-119 | one pass of the first loop extends the population by one mover |
| Scenarios.MoversMask | app/test.cpp:113-120 | the mask of `(Position, Velocity)` is `[true, true, false]` |
| Scenarios.MoversMatching | app/test.cpp:113-120 | exactly the even-indexed entities match `(Position, Velocity)` |
| Scenarios.MoversFetch | app/test.cpp:113-120 | `fetch<Position, Velocity>` yields entity `2j`'s position slot `2j` and velocity slot `j`, for every even entity |
| Scenarios.MoverWorld | app/test.cpp:108-111 | the built world is the empty first population |
| Scenarios.MoversStart | app/test.cpp:108-111 | registering `Position`, `Velocity`, `Entity` gives columns 0, 1 and 2 |
| Scenarios.PopulateMovers | app/test.cpp:113-120 | after `n` passes, `fetch<Position, Velocity>` yields the tuples of the even entities |
| Scenarios.FirstPopulation | app/test.cpp:107-120 | of the 10 entities, the 5 even ones match `System<Position, Velocity>` |
| Scenarios.BaresStart | app/test.cpp:151 | `create().build()` gives a world with `Entity` as column 0 and no entities |
| Scenarios.AppendBare | app/test.cpp:153 | `build_entity().build()` appends an entity that owns only itself, at its own slot |
| Scenarios.AddBare | app/test.cpp:153 | one pass of the second loop extends the population by one entity |
| Scenarios.BaresCover | app/test.cpp:152-153 | the mask of `(Entity)` is `[true]` and every entity covers it |
| Scenarios.BaresFetch | app/test.cpp:152-153 | `fetch<Entity>` yields every entity, in order |
| Scenarios.BareWorld | app/test.cpp:151 | the built world is the empty second population |
| Scenarios.PopulateBares | app/test.cpp:152-153 | after `n` passes, `fetch<Entity>` yields a tuple for every entity |
| Scenarios.SecondPopulation | app/test.cpp:150-153 | all 30 identity-only entities match `System<Entity>` |

## Left out

- The pong demo and the rest of the test program's `main` are not modelled: console output, timing, and the printer and `Exe` systems.
- The staged dependency scheduler (`add_systems`/`add_system(..., name, deps)`/`done`) is not modelled, nor are world resources and deferred removal. Only their documentation and call sites exist; `dispatch` is modelled as the sequential loop of `world_class.hpp`.
- Concurrency: none exists in the modelled code.
- Registries.Registry.IterTo: the console output of `iter_to` ("iterating", and "next" for each skipped node) is not modelled.
- Entities.Entity.AddComponent, Entities.Entity.GetComponent, Entities.Entity.HasComponents, Entities.HasComponentsSubset and Worlds.Store.Get: the source declares `Entity` with only an id and a bit-set and never defines `add_component`, `get_component` or `has_component`. The model gives them the meaning their call sites imply: a per-entity slot map, `has_component` as "every mask bit is owned", and `OutOfRange` from `get` for a component the entity does not own.
- Registries.Column.Size and Worlds.Store.Entities: `RegistryNode::size<T>` and `RegistryNode::iter<T>` are called (`entity_builder.hpp:54,66`, `world_class.hpp:181`) but never defined. The model gives `size<T>` the element count of the column, with a `TypeMismatch` failure on a wrong tag chosen to match `get_array<T>`, and `iter<Entity>` the `Entity` column's elements in order.
- WorldBuilders.WorldBuilder.Build: the source moves the world out of the builder (`std::move(world)`); the model returns the builder's own `World` object. The builder is always a temporary in the source, so no caller can observe the difference.
- Worlds.Store.RunTuple: a tuple holding the same pointer twice (a system that repeats a type, such as `System<Position, Position>`) has its values read once and `run`'s results written back in order, so the last write wins. Updates made in place through two aliases of one element, which the source's `run` would see accumulate, are not modelled. No system in the modelled program repeats a type.
- `Executable`/`System` virtual dispatch is not modelled. A system is a pair: the fetched types and a total function on the tuple's values. `exec` is modelled as its documented default: fetch, then `run` on every tuple.
- A system's `run` is assumed to write back values of the pointers' own types (`WellTyped`), as C++ static typing guarantees.
- `shared_ptr<void>` payloads and casts are not modelled; a column holds a `seq<Value>`.
- The aliasing copy constructor of `Registry` and the printing destructor of `RegistryNode` are not modelled.
- `typeid(T).hash_code()` is assumed unique per type (distinct tags).
- Movement.RunAt: integers are unbounded, so the `int64_t` overflow of `x + dx` and of `dx - fx` at the extremes is not modelled.
- Worlds.World.GetEid: the `size_t` counter is unbounded, so wrap-around after 2^64 ids is not modelled. The uninitialised starting value is modelled as arbitrary.
- Movement.RunAt: the source assigns `vel->dx` and then `vel->dy` through the pointer; the model computes both new axes locally and writes the velocity once. The final value is the same.
- `with_component` and `with` return the builder for chaining; the model calls them one after another on the same builder object.
- EntityBuilders.EntityBuilder.With: the model pushes into the column before updating the builder's entity, while the source updates the entity first. Both effects are independent, so the outcome is the same.
- The node list of `World` is a `std::vector<RegistryNode>` that a push may reallocate. The model keeps node objects at fixed identities, so pointer invalidation on growth is not modelled.
- Worlds.Store.FetchOver: its own contract only states addressability. The exact result is stated by Worlds.FetchOverExact.
- Worlds.Store.Fetch: its own contract only states failure and addressability. The exact result is stated by Worlds.FetchExact and Worlds.FetchFailsOnlyUnregistered.

## Findings

| source | as written | input that shows it | evidently intended | confidence | as-written member | corrected member |
|---|---|---|---|---|---|---|
| include/ecs/registry.hpp:177-182 | `register_entities` prepends the `Entity` node but never sets `tail`, so on an empty registry `head` is set and `tail` stays null; a later `register_component` then dereferences the null `tail` | `register_entities()` on a fresh `Registry` | set `tail` as well when the list was empty, as `register_component` does for `head` | not executed | Registries.Registry.RegisterEntitiesAsWritten | Registries.Registry.RegisterEntities |
