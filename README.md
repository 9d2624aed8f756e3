# Robot arm control: constraint table, inverse kinematics and joint tree

This project models the core of a small web application that drives a
four-motor robot arm. It covers four pieces:

- **The lamp arm's inverse kinematics** (`utils/lampes.ts`). A mutable
  table of mechanical limits, the *contraintes*, covers the motors `m1` to
  `m4`. It has a setter and a getter. `cinematiqueInverse` turns a target
  position into motor angles. It measures the distance `d` from the
  shoulder pivot to the target and refuses targets beyond `2 * 320 + 200`.
  It then builds an elbow-down and an elbow-up candidate and keeps those
  strictly inside the table's `m1` to `m3` ranges. It returns the first
  one kept and raises "no solution" when none is kept.
- **The world scene's inverse kinematics** (`utils/worlds.ts`). It runs the
  same measurement and candidates against a local `±180` table with
  inclusive bounds and a reach of `3 * 320`. When no candidate passes it
  returns the zero pose instead of failing. The file also defines
  `clampAngle`.
- **The joint tree** (`composables/robot.ts`). `createTree` turns a robot
  description into `JointNode` objects linked by their `linked_to` lists.
  It checks three things in order: a root joint exists, no name repeats,
  and every link resolves. `initRobot` clears the shared name-to-joint map,
  refills it from the tree, and records the robot.
- **The message schemas** (`utils/robot.t.ts`), modelled as validity
  predicates.

## Layout

- `wrappers.dfy` holds `Option` and `Result`, which stand in for
  `undefined` and for thrown errors.
- `robot_schemas.dfy` holds the entities of the schemas and their
  predicates. It also holds the two admission policies on a range: strict
  and inclusive.
- `arm.dfy` holds what both solvers share. It has the arm's constants, the
  degree/radian conversions and `THREE.MathUtils.clamp`. It has the
  measurement and the two candidates, in trial order. The trigonometric
  functions are uninterpreted fields of a `Trig` value.
- `lampes.dfy` holds the reference solve against a table, its lemmas, and
  the `ConstraintStore` class. That class holds the module-level table and
  runs the imperative `cinematiqueInverse`.
- `worlds.dfy` holds the local table, `clampAngle`, the reference solve with
  its zero fallback, its lemmas, and the imperative `cinematiqueInverse`.
- `robot_tree.dfy` holds the description and its three error cases as
  reference functions (first root, first repeated name, first missing
  link), with their characterisation lemmas. It also holds:
  - the `JointNode` class;
  - the methods that build and link the nodes in place;
  - `CreateTree`, proved to fail exactly as the reference functions say,
    and otherwise to return a freshly built tree;
  - the `RobotState` class with `InitRobot`.

## Behaviour worth knowing

- The lamp arm's table starts with every range at min 0, max 0
  (`utils/lampes.ts:5-22`). It does not start at a full `±180` range, and
  these initial ranges fail the constraint schema's `min < max`. The model
  follows the code. Until a table is set, every in-reach target fails with
  "no solution" (`Lampes.InitialTableAdmitsNothing`).
- The two solvers handle a target with no admissible candidate differently.
  The lamp solver raises an error. The world solver returns the zero pose,
  which the caller cannot tell apart from a genuine solution. Both
  behaviours are modelled as written.
- The reach thresholds differ too: `840` mm for the lamp solver and `960` mm
  for the world solver.

## Model

| member | source | states |
|---|---|---|
| RobotSchemas.Midpoint | utils/robot.t.ts:15-20 | returns an angle strictly inside a valid constraint, and that angle is itself in [-180, 180] |
| RobotSchemas.ValidConstraintHasInterior | utils/robot.t.ts:15-20 | a valid constraint has some angle strictly between its bounds, and an angle strictly between the bounds forces `min < max` |
| RobotSchemas.DescriptorPartsHaveRoom | utils/robot.t.ts:33-38 | every part of a valid descriptor has an angle strictly inside its constraint |
| Arm.Clamp | utils/lampes.ts:109-110 | the clamped value lies in `[lo, hi]`, equals the input when the input is in range, and is the nearer bound otherwise |
| Arm.Measure | utils/lampes.ts:96-110 | within twice the arm length the elbow angle is `acos` of the law-of-cosines value itself, the clamp changing nothing; at or beyond it the clamp pins the cosine to 1 |
| Arm.Alpha | utils/lampes.ts:117-119 | for a non-zero distance up to twice the arm length `alpha` is `acos(d / (2 * 320))`, the two arm terms cancelling; beyond it the clamp pins the cosine to 1 |
| Arm.ToDegrees | utils/lampes.ts:123-125 | converting the result back to radians gives the inputs: `m1` unchanged, `m2` with its sign flipped and the 95.36 degree correction added back, `m3` with its sign flipped |
| Arm.ElbowDown | utils/lampes.ts:115-125 | the elbow-down triple, read back in radians, has shoulder angle `angleToTarget - alpha` and elbow angle `m3RadBase` |
| Arm.ElbowUp | utils/lampes.ts:140-150 | the elbow-up triple, read back in radians, has shoulder angle `angleToTarget + alpha` and elbow angle `-m3RadBase` |
| Arm.CandidatesTurnWithBase | utils/lampes.ts:95-101 | two targets at the same height and the same horizontal distance get the same `m2` and `m3` candidates: turning the target about the vertical axis moves only `m1` |
| Arm.Candidates | utils/lampes.ts:113-163 | there are exactly two candidates, elbow-down first, when `d` is non-zero, and none when `d` is zero, where the NaN shoulder angle cannot pass any comparison |
| Arm.CandidatesMirror | utils/lampes.ts:115-150 | the two candidates share `m1` (the target's bearing in degrees), have opposite `m3` because `radToDeg` of a negated angle is the negated degrees, and their `m2` differ by twice `alpha` in degrees |
| Lampes.Admits | utils/lampes.ts:131-135 | an admitted triple implies every `m1` to `m3` range has `min < max`, and no angle sits on either bound of its range |
| Lampes.Select | utils/lampes.ts:165-171 | a selected triple is one of the candidates and is admitted by the table |
| Lampes.Solve | utils/lampes.ts:103-171 | fails with "out of reach" exactly when `d > 2 * 320 + 200`; a success is one of the candidates and lies strictly inside the table's `m1`, `m2` and `m3` ranges |
| Lampes.SelectIsFirstAdmitted | utils/lampes.ts:165-171 | selection yields a candidate that is admitted and preceded only by rejected ones; it yields nothing exactly when no candidate is admitted |
| Lampes.SolveOrder | utils/lampes.ts:113-171 | within reach, elbow-down is returned when admitted, elbow-up when only it is admitted, and "no solution" when neither is |
| Lampes.SolveAtZeroDistance | utils/lampes.ts:116-119 | a target at distance 0 from the shoulder always fails with "no solution" |
| Lampes.SolveIgnoresM4 | utils/lampes.ts:131-135 | the `m4` range never influences the result |
| Lampes.InitialTableAdmitsNothing | utils/lampes.ts:5-22 | with the initial all-zero table every in-reach target fails with "no solution", and its ranges fail the constraint schema |
| Lampes.ValidTableAdmitsSome | utils/lampes.ts:131-135 | a table whose `m1` to `m3` ranges pass the constraint schema admits some triple |
| Lampes.ConstraintStore.constructor | utils/lampes.ts:5-22 | the table starts with every range at min 0, max 0 |
| Lampes.ConstraintStore.DefinirContraintes | utils/lampes.ts:24-26 | the table becomes exactly the given one |
| Lampes.ConstraintStore.RecupererContraintes | utils/lampes.ts:28-30 | returns the current table and changes nothing |
| Lampes.ConstraintStore.CinematiqueInverse | utils/lampes.ts:86-172 | the result is the reference solve against the current table: out of reach exactly beyond 840, a success is admitted by the table, and "no solution" means no candidate is admitted |
| Worlds.ClampAngle | utils/worlds.ts:70-72 | the result lies in `[min, max]` for an ordered range, is the angle itself when inside, and is `min` when the range is inverted |
| Worlds.ClampAngleIsClamp | utils/worlds.ts:70-72 | on an ordered range `clampAngle` equals `THREE.MathUtils.clamp` |
| Worlds.Admits | utils/worlds.ts:106-110 | the local table admits a triple exactly when each of its angles passes the angle schema of `utils/robot.t.ts` |
| Worlds.BoundaryPolicies | utils/worlds.ts:106-110 | a triple strictly inside all three ranges is admitted; an admitted triple fails the lamp solver's strict test exactly when some angle, of any motor, sits on either bound `-180` or `180` |
| Worlds.SelectOrZero | utils/worlds.ts:136-143 | the result is always admitted, and is either the zero pose or one of the candidates |
| Worlds.Solve | utils/worlds.ts:83-143 | fails exactly when `d > 3 * 320`; a success is admitted, so all three angles are in [-180, 180], and is either the zero pose or one of the candidates |
| Worlds.SelectOrZeroIsFirstAdmitted | utils/worlds.ts:136-143 | when some candidate is admitted the selection is the first admitted one, preceded only by rejected ones; when none is, it is the zero pose |
| Worlds.SolveOrder | utils/worlds.ts:92-143 | within reach, elbow-down is returned when admitted, else elbow-up when admitted, else the zero pose |
| Worlds.SolveAtZeroDistance | utils/worlds.ts:94-98 | a target at distance 0 yields the zero pose |
| Worlds.CinematiqueInverse | utils/worlds.ts:55-144 | the result is the reference solve: out of reach exactly beyond 960, a success is admitted, and any non-zero success is one of the candidates |
| RobotTree.FirstRoot | composables/robot.ts:13 | a found root index is an index of the entry list |
| RobotTree.NamesOfMembers | composables/robot.ts:30-42 | the name set of the entries is exactly the set of names that occur in them |
| RobotTree.FirstRootIsFirst | composables/robot.ts:13-16 | the root found is the first entry marked `is_root`, and nothing is found exactly when no entry is marked |
| RobotTree.FirstDuplicate | composables/robot.ts:30-33 | a reported repeated name is one of the entry names |
| RobotTree.FirstDuplicateIsRepeat | composables/robot.ts:30-33 | a reported repeated name occurs at two positions, and nothing is reported exactly when all names are distinct |
| RobotTree.FirstDuplicateIsFirst | composables/robot.ts:30-33 | the reported name belongs to an entry that repeats an earlier name, and all entries before that one have distinct names, so it is the first repeat `forEach` meets |
| RobotTree.FirstMissing | composables/robot.ts:48-52 | a reported link is not among the names |
| RobotTree.FirstMissingIsFirst | composables/robot.ts:48-52 | the reported link is the first one not among the names, and nothing is reported exactly when all links resolve |
| RobotTree.MissingLink | composables/robot.ts:45-57 | a reported link is not among the names |
| RobotTree.MissingLinkNone | composables/robot.ts:45-57 | no missing link is reported exactly when every link of every entry resolves |
| RobotTree.MissingLinkIsFirst | composables/robot.ts:45-57 | the reported link is the first failing link of some entry, and every entry before it has all its links resolved |
| RobotTree.TreeFailure | composables/robot.ts:13-57 | a reported repeat is one of the names, and a reported unresolved link is not |
| RobotTree.TreeFailureNone | composables/robot.ts:9-70 | no error is reported exactly when some entry is a root, all names are distinct and every link of every entry names an entry |
| RobotTree.RootLinksResolve | composables/robot.ts:59-67 | once all entries' links resolve, the root's links resolve too, so the root phase's error is unreachable |
| RobotTree.JointNode.constructor | composables/robot.ts:35-41 | a new node carries the entry's name, constraint and origin, angle 0 and no children |
| RobotTree.FindRoot | composables/robot.ts:13 | the loop finds the first root entry, as the reference function does |
| RobotTree.MakeNodes | composables/robot.ts:27-42 | fails exactly on the first repeated name; otherwise the map's keys are the entry names, and each maps to a fresh childless node at angle 0 with that entry's data |
| RobotTree.LinkChildren | composables/robot.ts:48-55 | reports the first unresolved link; otherwise the node's children are the linked nodes in list order |
| RobotTree.LinkNodes | composables/robot.ts:44-57 | reports the first unresolved link across all entries; otherwise every node's children are its entry's linked nodes in order |
| RobotTree.LinkTree | composables/robot.ts:44-67 | links every node and then the root, failing exactly as the entry-level link check says |
| RobotTree.CreateTree | composables/robot.ts:9-70 | fails exactly when there is no root, a name repeats or a link is missing, with that first error; otherwise it returns a fresh root node built from the first root entry, separate from the named nodes, with every node's children as described and no children for an entry without `linked_to` |
| RobotTree.ByNameKeys | composables/robot.ts:85-88 | every listed joint's name is a key of the refilled map, and every key maps to a listed joint carrying that name |
| RobotTree.ByNameKeepsLast | composables/robot.ts:86-88 | when a name occurs several times in the list, its last joint wins |
| RobotTree.RobotState.constructor | composables/robot.ts:5-6 | there is no robot and the joint map is empty |
| RobotTree.RobotState.RefillJoints | composables/robot.ts:85-88 | the map is cleared and then holds exactly the listed joints by name, last one winning |
| RobotTree.RobotState.InitRobot | composables/robot.ts:81-92 | fails exactly as the tree does and then leaves the robot and the joint map as they were; otherwise the recorded root is built from the description as `CreateTree` promises, the robot records the description's information with it, and the joint map holds exactly the joints listed from that root |

## Left out

- The forward kinematics `cinematique` in `utils/lampes.ts` (and its copy in `utils/worlds.ts`) is not modelled. It uses only trigonometry, and no property of the core depends on it.
- `atan2`, `sqrt` and `acos` are uninterpreted functions. The arithmetic is on exact reals, with no IEEE rounding, infinities or NaN inputs. This is why no property relates the solvers to forward kinematics.
- Arm.Candidates: the NaN that JavaScript computes for `alpha` when `d` is 0 is modelled as an empty candidate list. It is not a NaN value. Under both tables this has the same outcome, since a NaN fails every comparison.
- The `console.log` tracing in `cinematiqueInverse` is left out.
- `loadRobotDescription` is left out: fetching the file, `JSON.parse` and the schema parse are I/O. `InitRobot` receives the parsed description.
- `list_all_joints_from_root` comes from an external package. It is not part of this model, and `InitRobot` takes it as a parameter.
- RobotTree.RobotState.InitRobot: `list_all_joints_from_root` is a parameter of function type, so the model does not let it read the tree's nodes. Whatever list it yields, the refilled map is stated in terms of it.
- `useState` reactivity and `useRobot` are left out. `RobotState` holds the two shared values as plain fields.
- The descriptor type consumed by `createTree` comes from the same external package. It is modelled as the information (an uninterpreted string) plus the joint entries as a list in `Object.entries` order. That order, integer-like keys first, is not modelled. The list can even repeat a name, which is what makes the "exists multiple times" error reachable in the model.
- RobotTree.JointNode: `name`, `constraint` and `origin` are immutable fields. Nothing in the core reassigns them.
- Lampes.ConstraintStore.DefinirContraintes: the table is stored as a value. Later mutation, by the caller, of the object it passed in is not modelled.
- Lampes.ConstraintStore.RecupererContraintes: returns a copy of the table as a value. In JavaScript it returns the live module-level object, so a caller can edit the table in place through it; those edits are not modelled.
- `RobotSchema`, with its `three` `Group` model, is not modelled. It is a rendering object.
- The zod `number` checks are modelled on reals. NaN and the infinities are left out.
- `utils/modeles.ts`, the message type declarations and the build and lint configurations are not part of this model.
- `clampAngle` is defined inside the world solver but never called there. It is modelled and proved on its own.
