/**
 * The chained change move: relocate `entity` so that it sits directly behind
 * `toPlanningValue`, closing the gap it leaves in its old chain and rerouting
 * whatever trailed `toPlanningValue` so that it now trails `entity`.
 */
module ChainedChange {
  import opened Chains
  import opened ScoreDirectors

  /** Handle of the descriptor of the chained variable (its reflective getter and setter are not modelled). */
  datatype VariableDescriptor = VariableDescriptor(variableName: string)

  /** Handle of the inverse supply; its lookups are `InverseSingleton` on the working solution. */
  datatype InverseVariableSupply = InverseVariableSupply(supplyId: nat)

  /** The move's four immutable fields. */
  datatype ChainedChangeMove = ChainedChangeMove(
    entity: EntityIndex,
    variableDescriptor: VariableDescriptor,
    inverseVariableSupply: InverseVariableSupply,
    toPlanningValue: Value)

  /** The move would attach the entity behind itself. */
  predicate IsSelfAttach(m: ChainedChangeMove)
  {
    m.toPlanningValue == Entity(m.entity)
  }

  /**
   * Doability: the inherited change-move check, given as `changeMoveDoable`
   * because its contents are not part of this model, and no self-attach.
   */
  function IsMoveDoable(m: ChainedChangeMove, s: Solution, changeMoveDoable: (EntityIndex, Value, Solution) -> bool): (r: bool)
    ensures IsSelfAttach(m) ==> !r
    ensures !IsSelfAttach(m) ==> r == changeMoveDoable(m.entity, m.toPlanningValue, s)
  {
    changeMoveDoable(m.entity, m.toPlanningValue, s) && m.toPlanningValue != Entity(m.entity)
  }

  /** The undo move: same entity, descriptor and supply, aimed back at the entity's current value. */
  function CreateUndoMove(m: ChainedChangeMove, s: Solution): (u: ChainedChangeMove)
    requires m.entity < |s|
    ensures u.entity == m.entity
    ensures u.variableDescriptor == m.variableDescriptor
    ensures u.inverseVariableSupply == m.inverseVariableSupply
    ensures u.toPlanningValue == s[m.entity]
  {
    ChainedChangeMove(m.entity, m.variableDescriptor, m.inverseVariableSupply, s[m.entity])
  }

  /** The three facts read from the working solution before any write. */
  datatype Snapshot = Snapshot(
    oldValue: Value,
    oldTrailingEntity: Option<EntityIndex>,
    newTrailingEntity: Option<EntityIndex>)

  function ReadSnapshot(m: ChainedChangeMove, s: Solution): (snap: Snapshot)
    requires m.entity < |s|
    ensures snap.oldValue == s[m.entity]
    ensures snap.oldTrailingEntity.Some? <==> HasTrailing(s, Entity(m.entity))
    ensures snap.oldTrailingEntity.Some? ==>
      snap.oldTrailingEntity.value < |s| && s[snap.oldTrailingEntity.value] == Entity(m.entity)
    ensures snap.newTrailingEntity.Some? <==> !m.toPlanningValue.Null? && HasTrailing(s, m.toPlanningValue)
    ensures snap.newTrailingEntity.Some? ==>
      snap.newTrailingEntity.value < |s| && s[snap.newTrailingEntity.value] == m.toPlanningValue
  {
    var oldTrailing := InverseSingleton(s, Entity(m.entity));
    var newTrailing := if m.toPlanningValue.Null? then None else InverseSingleton(s, m.toPlanningValue);
    Snapshot(s[m.entity], oldTrailing, newTrailing)
  }

  /** Close the old chain: the entity that trailed `entity` takes over its old value. */
  function ClosingChanges(snap: Snapshot): seq<Change>
  {
    if snap.oldTrailingEntity.Some? then [Change(snap.oldTrailingEntity.value, snap.oldValue)] else []
  }

  /** Reroute the new chain: the entity that trailed the target now trails `entity`. */
  function ReroutingChanges(m: ChainedChangeMove, snap: Snapshot): seq<Change>
  {
    if snap.newTrailingEntity.Some? then [Change(snap.newTrailingEntity.value, Entity(m.entity))] else []
  }

  /**
   * The writes the move issues, in order: close the old chain, change the
   * entity, reroute the new chain. They depend on the snapshot only, never on
   * the outcome of an earlier write.
   */
  function Changes(m: ChainedChangeMove, snap: Snapshot): seq<Change>
  {
    ClosingChanges(snap) + [Change(m.entity, m.toPlanningValue)] + ReroutingChanges(m, snap)
  }

  /** The writes of the move on `s`: all within the solution and at most three. */
  function Plan(m: ChainedChangeMove, s: Solution): (cs: seq<Change>)
    requires m.entity < |s|
    ensures ChangesWithin(cs, |s|)
    ensures 1 <= |cs| <= 3
  {
    Changes(m, ReadSnapshot(m, s))
  }

  /** The working solution after the move: the same entities, with the plan's writes performed in order. */
  function DoMove(m: ChainedChangeMove, s: Solution): (r: Solution)
    requires m.entity < |s|
    ensures |r| == |s|
  {
    ApplyChanges(s, Plan(m, s))
  }

  /**
   * The move on the score director's working solution: snapshot, then at most
   * three writes through `ChangeVariableFacade`.
   */
  method DoMoveOnGenuineVariables(m: ChainedChangeMove, scoreDirector: ScoreDirector)
    requires scoreDirector.Valid() && m.entity < |scoreDirector.workingSolution|
    modifies scoreDirector
    ensures scoreDirector.Valid() && scoreDirector.origin == old(scoreDirector.origin)
    ensures scoreDirector.workingSolution == DoMove(m, old(scoreDirector.workingSolution))
    ensures scoreDirector.changeLog == old(scoreDirector.changeLog) + Plan(m, old(scoreDirector.workingSolution))
  {
    ghost var s := scoreDirector.workingSolution;
    ghost var log := scoreDirector.changeLog;
    var oldValue := scoreDirector.workingSolution[m.entity];
    var oldTrailingEntity := InverseSingleton(scoreDirector.workingSolution, Entity(m.entity));
    var newTrailingEntity := if m.toPlanningValue.Null? then None
      else InverseSingleton(scoreDirector.workingSolution, m.toPlanningValue);
    ghost var snap := Snapshot(oldValue, oldTrailingEntity, newTrailingEntity);
    assert snap == ReadSnapshot(m, s);
    ghost var relocating := ClosingChanges(snap) + [Change(m.entity, m.toPlanningValue)];
    assert Changes(m, snap) == relocating + ReroutingChanges(m, snap) == Plan(m, s);
    // Close the old chain
    if oldTrailingEntity.Some? {
      scoreDirector.ChangeVariableFacade(oldTrailingEntity.value, oldValue);
    }
    assert scoreDirector.changeLog == log + ClosingChanges(snap);
    assert |scoreDirector.workingSolution| == |s|;
    // Change the entity
    scoreDirector.ChangeVariableFacade(m.entity, m.toPlanningValue);
    assert scoreDirector.changeLog == log + relocating;
    // Reroute the new chain
    if newTrailingEntity.Some? {
      scoreDirector.ChangeVariableFacade(newTrailingEntity.value, Entity(m.entity));
      assert scoreDirector.changeLog == log + relocating + ReroutingChanges(m, snap);
    } else {
      assert relocating + ReroutingChanges(m, snap) == relocating;
    }
    assert log + relocating + ReroutingChanges(m, snap) == log + Changes(m, snap);
    assert scoreDirector.changeLog == log + Changes(m, snap);
    ApplyChangesAppend(scoreDirector.origin, log, Changes(m, snap));
  }
}
