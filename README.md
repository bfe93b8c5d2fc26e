# Chained change move (OptaPlanner)

This project models OptaPlanner's `ChainedChangeMove` in Dafny and proves properties of the model.

A *chained* planning variable stores each entity's immediate predecessor. That predecessor is another entity, an anchor (the head of a chain), or null when the entity is unassigned. Together the values form singly-linked chains rooted at anchors.

The move relocates `entity` so that it sits directly behind `toPlanningValue`:

- It reads three facts from the working solution: the entity's old value, the entity that trails it, and the entity that trails the target.
- It then issues up to three writes through the score director, in a fixed order:
  1. close the old chain;
  2. change the entity;
  3. reroute the new chain.

Modules:

- `Chains` (`chains.dfy`) defines the following:
  - the value of a chained variable, `Value = Null | Anchor | Entity`;
  - the working solution, a `seq<Value>` indexed by entity;
  - the inverse singleton lookup;
  - the chain invariant: values in range, successor uniqueness, unassigned entities have nothing trailing them, and acyclicity as the existence of a strictly decreasing ranking.
- `ScoreDirectors` (`score_director.dfy`) has the primitive write `Change` and `ApplyChanges`, which performs writes in order. It also has the class `ScoreDirector`. Its method `ChangeVariableFacade` writes one entity's slot and appends the write to a ghost change log. Its invariant `Valid()` says that the log replayed from the starting solution gives the working solution.
- `ChainedChange` (`chained_change_move.dfy`) covers the move itself:
  - the move's fields, as the datatype `ChainedChangeMove`;
  - doability and the undo move;
  - the snapshot of the three reads and the write plan computed from that snapshot alone;
  - `DoMove`, the solution after the plan;
  - the imperative `DoMoveOnGenuineVariables`, which runs against a `ScoreDirector`.
- `ChainedChangeProperties` (`chained_change_properties.dfy`) holds the lemmas about the move.
- `ChainedChangeScenarios` (`chained_change_scenarios.dfy`) states the outcome of the move on six small solutions, and on two solutions where the undo move does not restore the state.

## A move onto the current predecessor makes a self-loop

One might expect that moving an entity behind the value it already has changes nothing. The code does not behave that way.

The code takes all three reads before any write. So `getInverseSingleton(toPlanningValue)` returns the moved entity itself. The writes then go as follows:

1. The entity's old trailing entity is set to the old value.
2. The entity is set to the target, which is no change.
3. The "new trailing entity" is set to the entity. That is the entity itself, so it now points at itself.

On A1 → e1 → e2 → e3, moving e2 behind e1 gives e3 → e1 and e2 → e2.

The model follows the code:

- `SameValueMoveSelfLoops` proves the self-loop and the resulting cycle in general.
- `ChainedChangeScenarios.MoveBehindCurrentPredecessor` shows the concrete case.

Some properties still hold in this case:

- successor uniqueness (`DoMovePreservesSuccessorUnique`);
- the undo round trip (`UndoRoundTripOfSameValueMove`).

The full chain invariant (`DoMovePreservesChains`) is proved only for moves whose target differs from the entity's current value. Excluding such moves is left to the caller; the inherited `ChangeMove.isMoveDoable` is not part of this model.

## What the undo round trip needs

`UndoRoundTrip` needs more than successor uniqueness. It also needs nothing to trail an unassigned entity, and the moved entity not to point at itself. Both follow from the chain invariant (`WellFormedUndoRoundTrip`), and each is needed:

- If an entity trails an unassigned entity, the move closes it up to null, and the undo move cannot put it back (`ChainedChangeScenarios.UndoFailsWhenUnassignedIsTrailed`).
- If the entity points at itself, it is its own old trailing entity, and the undo move is a self-attach that leaves two entities behind it (`ChainedChangeScenarios.UndoFailsAfterSelfLoop`).

## Model

| member | source | states |
|---|---|---|
| `Chains.InverseSingleton` | optaplanner-core/src/main/java/org/optaplanner/core/impl/heuristic/selector/move/generic/chained/ChainedChangeMove.java:59-61 | the lookup returns an entity whose value is the queried value, and returns none only when no entity has that value |
| `Chains.InverseSingletonFinds` | optaplanner-core/src/main/java/org/optaplanner/core/impl/heuristic/selector/move/generic/chained/ChainedChangeMove.java:59-61 | under successor uniqueness, the lookup of a non-null value returns exactly the entity that has it |
| `ChainedChange.IsMoveDoable` | optaplanner-core/src/main/java/org/optaplanner/core/impl/heuristic/selector/move/generic/chained/ChainedChangeMove.java:45-48 | a self-attach is never doable; any other move is doable exactly when the inherited change-move check allows it |
| `ChainedChange.CreateUndoMove` | optaplanner-core/src/main/java/org/optaplanner/core/impl/heuristic/selector/move/generic/chained/ChainedChangeMove.java:51-54 | the undo move keeps the entity, descriptor and inverse supply, and targets the entity's value at the moment of the call |
| `ChainedChange.ReadSnapshot` | optaplanner-core/src/main/java/org/optaplanner/core/impl/heuristic/selector/move/generic/chained/ChainedChangeMove.java:58-61 | the old value is the entity's current value; the old trailing entity is present exactly when some entity points at the moved entity, and it does; the new trailing entity is present exactly when the target is non-null and some entity points at it, and it does |
| `ChainedChange.Plan` | optaplanner-core/src/main/java/org/optaplanner/core/impl/heuristic/selector/move/generic/chained/ChainedChangeMove.java:62-71 | every write targets an existing entity, and there are between one and three writes |
| `ChainedChange.DoMove` | optaplanner-core/src/main/java/org/optaplanner/core/impl/heuristic/selector/move/generic/chained/ChainedChangeMove.java:57-72 | the solution after the writes of `Plan` are performed in order, over the same entities; its value at every entity is given by `DoMoveAt`, and `Changes` (the close, relocate and reroute writes from the snapshot) is covered by the rows for `Plan` and `PlanShape` |
| `ChainedChangeProperties.PlanShape` | optaplanner-core/src/main/java/org/optaplanner/core/impl/heuristic/selector/move/generic/chained/ChainedChangeMove.java:57-72 | the writes come in order: the close write goes to the entity that pointed at the moved entity; then the entity's own write; then the reroute write to the entity that pointed at the non-null target; each write carries a pre-move value; the count is [old trailing] + 1 + [new trailing] |
| `ChainedChange.DoMoveOnGenuineVariables` | optaplanner-core/src/main/java/org/optaplanner/core/impl/heuristic/selector/move/generic/chained/ChainedChangeMove.java:57-72 | after the three reads and the guarded writes through the score director, the working solution is `DoMove` of the old one; the log grew by exactly the plan computed from the pre-move reads; the director's invariant holds |
| `ScoreDirectors.ScoreDirector.ChangeVariableFacade` | optaplanner-core/src/main/java/org/optaplanner/core/impl/heuristic/selector/move/generic/chained/ChainedChangeMove.java:64 | one entity's slot takes the new value, nothing else changes, the write is appended to the log, and the log still explains the working solution |
| `ScoreDirectors.ApplyChangesAt` | optaplanner-core/src/main/java/org/optaplanner/core/impl/heuristic/selector/move/generic/chained/ChainedChangeMove.java:62-71 | an entity that no write targets keeps its value; a written entity ends with the value of the last write to it |
| `ScoreDirectors.ApplyChangesAppend` | optaplanner-core/src/main/java/org/optaplanner/core/impl/heuristic/selector/move/generic/chained/ChainedChangeMove.java:62-71 | performing two runs of writes one after the other equals performing their concatenation |
| `ChainedChangeProperties.DoMoveSteps` | optaplanner-core/src/main/java/org/optaplanner/core/impl/heuristic/selector/move/generic/chained/ChainedChangeMove.java:62-71 | the move equals three successive single-slot updates in the source's order: close, relocate, reroute |
| `ChainedChangeProperties.DoMoveAt` | optaplanner-core/src/main/java/org/optaplanner/core/impl/heuristic/selector/move/generic/chained/ChainedChangeMove.java:57-72 | every entity's value after the move, read off the snapshot, with the last write winning |
| `ChainedChangeProperties.MovedEntityTakesTarget` | optaplanner-core/src/main/java/org/optaplanner/core/impl/heuristic/selector/move/generic/chained/ChainedChangeMove.java:67 | after the move the entity's value is the target, including a null target that leaves it unassigned, unless it already sat behind that non-null target |
| `ChainedChangeProperties.CloseOldChain` | optaplanner-core/src/main/java/org/optaplanner/core/impl/heuristic/selector/move/generic/chained/ChainedChangeMove.java:58-65 | an entity that pointed at the moved entity now points at the moved entity's old value |
| `ChainedChangeProperties.RerouteNewChain` | optaplanner-core/src/main/java/org/optaplanner/core/impl/heuristic/selector/move/generic/chained/ChainedChangeMove.java:60-71 | an entity that pointed at a non-null target now points at the moved entity |
| `ChainedChangeProperties.DoMoveFrame` | optaplanner-core/src/main/java/org/optaplanner/core/impl/heuristic/selector/move/generic/chained/ChainedChangeMove.java:57-72 | every other entity keeps its value: any entity that is not the moved one and pointed at neither the moved entity nor a non-null target |
| `ChainedChangeProperties.DistinctAfterMove` | optaplanner-core/src/main/java/org/optaplanner/core/impl/heuristic/selector/move/generic/chained/ChainedChangeMove.java:57-72 | after a move that is not a self-attach, two distinct entities never share a non-null value |
| `ChainedChangeProperties.DoMovePreservesSuccessorUnique` | optaplanner-core/src/main/java/org/optaplanner/core/impl/heuristic/selector/move/generic/chained/ChainedChangeMove.java:57-72 | a move that is not a self-attach keeps at most one entity behind every non-null value |
| `ChainedChangeProperties.DoableMovePreservesSuccessorUnique` | optaplanner-core/src/main/java/org/optaplanner/core/impl/heuristic/selector/move/generic/chained/ChainedChangeMove.java:45-72 | whatever the inherited check decides, a doable move keeps successor uniqueness |
| `ChainedChangeProperties.DoMovePreservesInRange` | optaplanner-core/src/main/java/org/optaplanner/core/impl/heuristic/selector/move/generic/chained/ChainedChangeMove.java:57-72 | entity values keep naming existing entities when an entity target exists |
| `ChainedChangeProperties.DoMovePreservesChainEnds` | optaplanner-core/src/main/java/org/optaplanner/core/impl/heuristic/selector/move/generic/chained/ChainedChangeMove.java:57-72 | nothing comes to trail an unassigned entity, provided an entity target is assigned |
| `ChainedChangeProperties.DoMovePreservesAcyclic` | optaplanner-core/src/main/java/org/optaplanner/core/impl/heuristic/selector/move/generic/chained/ChainedChangeMove.java:57-72 | a move to a target other than the entity and its current value keeps the chains free of cycles |
| `ChainedChangeProperties.DoMovePreservesChains` | optaplanner-core/src/main/java/org/optaplanner/core/impl/heuristic/selector/move/generic/chained/ChainedChangeMove.java:57-72 | a move to an admissible target keeps the whole chain invariant; admissible means not the entity itself, not its current value, and an existing assigned entity if the target is an entity |
| `ChainedChangeProperties.SameValueMoveSelfLoops` | optaplanner-core/src/main/java/org/optaplanner/core/impl/heuristic/selector/move/generic/chained/ChainedChangeMove.java:58-71 | moving an entity behind the non-null value it already has leaves it pointing at itself, so the solution changes and has a cycle |
| `ChainedChangeProperties.UndoSnapshotOfSameValueMove` | optaplanner-core/src/main/java/org/optaplanner/core/impl/heuristic/selector/move/generic/chained/ChainedChangeMove.java:51-61 | after a move onto the current value, the undo move reads the entity as its own value and its own trailing entity, and the old trailing entity as the target's trailing entity |
| `ChainedChangeProperties.UndoSnapshotOfRelocatingMove` | optaplanner-core/src/main/java/org/optaplanner/core/impl/heuristic/selector/move/generic/chained/ChainedChangeMove.java:51-61 | after any other move, the undo move reads the target as the old value and the rerouted entity as the old trailing entity; the closed-up entity is the new trailing entity unless the old value was null |
| `ChainedChangeProperties.UndoRoundTripOfRelocatingMove` | optaplanner-core/src/main/java/org/optaplanner/core/impl/heuristic/selector/move/generic/chained/ChainedChangeMove.java:51-72 | the move followed by its pre-captured undo restores every entity, when the entity did not already sit behind a non-null target |
| `ChainedChangeProperties.UndoRoundTripOfSameValueMove` | optaplanner-core/src/main/java/org/optaplanner/core/impl/heuristic/selector/move/generic/chained/ChainedChangeMove.java:51-72 | the move followed by its pre-captured undo restores every entity, even when the move made a self-loop |
| `ChainedChangeProperties.UndoRoundTrip` | optaplanner-core/src/main/java/org/optaplanner/core/impl/heuristic/selector/move/generic/chained/ChainedChangeMove.java:51-72 | with unique successors, no self-loop at the entity, nothing trailing an unassigned entity and no self-attach, applying the move and then its pre-captured undo restores every entity's value |
| `ChainedChangeProperties.WellFormedUndoRoundTrip` | optaplanner-core/src/main/java/org/optaplanner/core/impl/heuristic/selector/move/generic/chained/ChainedChangeMove.java:51-72 | on well-formed chains, every move that is not a self-attach is undone by the undo move captured before it |
| `ChainedChangeScenarios.MoveFromMiddleToEndOfOtherChain` | optaplanner-core/src/main/java/org/optaplanner/core/impl/heuristic/selector/move/generic/chained/ChainedChangeMove.java:57-72 | A1→e1→e2→e3, A2→e4, moving e2 behind e4: the writes are e3:=e1 then e2:=e4 |
| `ChainedChangeScenarios.InsertIntoMiddleOfOtherChain` | optaplanner-core/src/main/java/org/optaplanner/core/impl/heuristic/selector/move/generic/chained/ChainedChangeMove.java:57-72 | moving the tail e2 behind e3 in A2→e3→e4: the writes are e2:=e3 then e4:=e2 |
| `ChainedChangeScenarios.MoveTailToEmptyAnchor` | optaplanner-core/src/main/java/org/optaplanner/core/impl/heuristic/selector/move/generic/chained/ChainedChangeMove.java:57-72 | moving a tail to an empty anchor is the single write e2:=A2 |
| `ChainedChangeScenarios.MoveBehindCurrentPredecessor` | optaplanner-core/src/main/java/org/optaplanner/core/impl/heuristic/selector/move/generic/chained/ChainedChangeMove.java:57-72 | moving e2 behind e1, where it already is: the writes are e3:=e1, e2:=e1, e2:=e2 |
| `ChainedChangeScenarios.Unassign` | optaplanner-core/src/main/java/org/optaplanner/core/impl/heuristic/selector/move/generic/chained/ChainedChangeMove.java:57-72 | unassigning e2 in A1→e1→e2→e3: the writes are e3:=e1 then e2:=null, with no reroute |
| `ChainedChangeScenarios.UndoOfFirstScenario` | optaplanner-core/src/main/java/org/optaplanner/core/impl/heuristic/selector/move/generic/chained/ChainedChangeMove.java:51-72 | the undo of the first scenario is the move of e2 behind e1, and it restores both chains |
| `ChainedChangeScenarios.UndoFailsWhenUnassignedIsTrailed` | optaplanner-core/src/main/java/org/optaplanner/core/impl/heuristic/selector/move/generic/chained/ChainedChangeMove.java:51-72 | with e2 trailing an unassigned e1, moving e1 to A2 and then undoing leaves e2 unassigned, so the state is not restored |
| `ChainedChangeScenarios.UndoFailsAfterSelfLoop` | optaplanner-core/src/main/java/org/optaplanner/core/impl/heuristic/selector/move/generic/chained/ChainedChangeMove.java:51-72 | with e1 pointing at itself and e2 at A1, moving e1 to A1 and then undoing leaves e1 and e2 both behind e1, so the state is not restored |

## Left out

- The contents of the inherited `ChangeMove.isMoveDoable` (value-range admissibility, pinning, the no-op check) are not modelled. `ChangeMove.java` is not part of this model. `IsMoveDoable` takes the inherited check as a function parameter. The lemmas state the conditions they need of the target explicitly.
- The score director's incremental score calculation and its error propagation are not modelled. A write is only "set one slot and log it".
- The inverse supply's indexing and upkeep are not modelled. Its lookup is the function `InverseSingleton` of the current working solution, which is assumed consistent with it. On a solution without successor uniqueness, the lookup returns some matching entity (the highest index).
- The reflective `GenuineVariableDescriptor` getter and setter, and Java generics, are not modelled. The descriptor and the supply are opaque handles that the undo move carries over. The model covers one chained variable.
- `Objects.equals` against object identity is not modelled: entities are indices, and equality is index equality.
- The Java constructor is the datatype constructor `ChainedChangeMove`. It stores its four arguments and has no contract of its own.
- The outer search loop, move selection, acceptance and tabu logic are not modelled. They are not part of this model.
- MovedEntityTakesTarget: the entity takes the target as its value only when it did not already sit behind that non-null target. In that case the code makes the entity point at itself (`SameValueMoveSelfLoops`).
- DoMovePreservesChains: requires the target to differ from the entity's current value, and requires an entity target to exist and be assigned. Without these conditions the code breaks the chain invariant, so the lemma relies on the caller to exclude those moves.
