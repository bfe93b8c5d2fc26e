/**
 * The outcome of the chained change move on small solutions. Entities
 * e1..e5 are indices 0..4 and the anchors A1, A2 are `Anchor(1)`, `Anchor(2)`;
 * a chain A1 -> e1 -> e2 is written as e1 pointing at A1 and e2 at e1.
 */
module ChainedChangeScenarios {
  import opened Chains
  import opened ScoreDirectors
  import opened ChainedChange
  import opened ChainedChangeProperties

  const descriptor := VariableDescriptor("previousStandstill")
  const supply := InverseVariableSupply(0)

  function Move(entity: EntityIndex, toPlanningValue: Value): ChainedChangeMove
  {
    ChainedChangeMove(entity, descriptor, supply, toPlanningValue)
  }

  /** A1 -> e1 -> e2 -> e3, A2 -> e4; move e2 behind e4: the old chain closes, nothing trails e4. */
  lemma MoveFromMiddleToEndOfOtherChain()
    ensures var s := [Anchor(1), Entity(0), Entity(1), Anchor(2)];
      && Plan(Move(1, Entity(3)), s) == [Change(2, Entity(0)), Change(1, Entity(3))]
      && DoMove(Move(1, Entity(3)), s) == [Anchor(1), Entity(3), Entity(0), Anchor(2)]
  {
    var s := [Anchor(1), Entity(0), Entity(1), Anchor(2)];
    assert ReadSnapshot(Move(1, Entity(3)), s) == Snapshot(Entity(0), Some(2), None);
    DoMoveSteps(Move(1, Entity(3)), s);
  }

  /** A1 -> e1 -> e2, A2 -> e3 -> e4; move the tail e2 behind e3: e4 is rerouted behind e2. */
  lemma InsertIntoMiddleOfOtherChain()
    ensures var s := [Anchor(1), Entity(0), Anchor(2), Entity(2)];
      && Plan(Move(1, Entity(2)), s) == [Change(1, Entity(2)), Change(3, Entity(1))]
      && DoMove(Move(1, Entity(2)), s) == [Anchor(1), Entity(2), Anchor(2), Entity(1)]
  {
    var s := [Anchor(1), Entity(0), Anchor(2), Entity(2)];
    assert ReadSnapshot(Move(1, Entity(2)), s) == Snapshot(Entity(0), None, Some(3));
    DoMoveSteps(Move(1, Entity(2)), s);
  }

  /** A1 -> e1 -> e2 and an empty A2; move e2 to A2: a single write. */
  lemma MoveTailToEmptyAnchor()
    ensures var s := [Anchor(1), Entity(0)];
      && Plan(Move(1, Anchor(2)), s) == [Change(1, Anchor(2))]
      && DoMove(Move(1, Anchor(2)), s) == [Anchor(1), Anchor(2)]
  {
    var s := [Anchor(1), Entity(0)];
    assert ReadSnapshot(Move(1, Anchor(2)), s) == Snapshot(Entity(0), None, None);
    DoMoveSteps(Move(1, Anchor(2)), s);
  }

  /**
   * A1 -> e1 -> e2 -> e3; move e2 behind e1, where it already is. The snapshot
   * finds e2 itself trailing e1, so the third write points e2 at itself.
   */
  lemma MoveBehindCurrentPredecessor()
    ensures var s := [Anchor(1), Entity(0), Entity(1)];
      && Plan(Move(1, Entity(0)), s) == [Change(2, Entity(0)), Change(1, Entity(0)), Change(1, Entity(1))]
      && DoMove(Move(1, Entity(0)), s) == [Anchor(1), Entity(1), Entity(0)]
  {
    var s := [Anchor(1), Entity(0), Entity(1)];
    assert ReadSnapshot(Move(1, Entity(0)), s) == Snapshot(Entity(0), Some(2), Some(1));
    DoMoveSteps(Move(1, Entity(0)), s);
  }

  /** A1 -> e1 -> e2 -> e3; unassign e2: e3 closes up behind e1 and there is no reroute. */
  lemma Unassign()
    ensures var s := [Anchor(1), Entity(0), Entity(1)];
      && Plan(Move(1, Null), s) == [Change(2, Entity(0)), Change(1, Null)]
      && DoMove(Move(1, Null), s) == [Anchor(1), Null, Entity(0)]
  {
    var s := [Anchor(1), Entity(0), Entity(1)];
    assert ReadSnapshot(Move(1, Null), s) == Snapshot(Entity(0), Some(2), None);
    DoMoveSteps(Move(1, Null), s);
  }

  /** The undo move captured before the first scenario restores both chains. */
  lemma UndoOfFirstScenario()
    ensures var s := [Anchor(1), Entity(0), Entity(1), Anchor(2)];
      && CreateUndoMove(Move(1, Entity(3)), s) == Move(1, Entity(0))
      && DoMove(Move(1, Entity(0)), DoMove(Move(1, Entity(3)), s)) == s
  {
    var s := [Anchor(1), Entity(0), Entity(1), Anchor(2)];
    MoveFromMiddleToEndOfOtherChain();
    var s1 := [Anchor(1), Entity(3), Entity(0), Anchor(2)];
    assert ReadSnapshot(Move(1, Entity(0)), s1) == Snapshot(Entity(3), None, Some(2));
    DoMoveSteps(Move(1, Entity(0)), s1);
  }

  /**
   * The undo move needs nothing to trail an unassigned entity: with e2 behind
   * an unassigned e1, moving e1 to A2 closes e2 up to null, and the undo move
   * (e1 back to null) cannot put e2 back behind e1.
   */
  lemma UndoFailsWhenUnassignedIsTrailed()
    ensures var s := [Null, Entity(0)];
      && DoMove(Move(0, Anchor(2)), s) == [Anchor(2), Null]
      && CreateUndoMove(Move(0, Anchor(2)), s) == Move(0, Null)
      && DoMove(Move(0, Null), DoMove(Move(0, Anchor(2)), s)) == [Null, Null]
      && [Null, Null] != s
  {
    var s := [Null, Entity(0)];
    assert ReadSnapshot(Move(0, Anchor(2)), s) == Snapshot(Null, Some(1), None);
    DoMoveSteps(Move(0, Anchor(2)), s);
    var s1 := [Anchor(2), Null];
    assert ReadSnapshot(Move(0, Null), s1) == Snapshot(Anchor(2), None, None);
    DoMoveSteps(Move(0, Null), s1);
  }

  /**
   * The undo move needs the entity not to point at itself: moving a self-looped
   * e1 to A1 (trailed by e2) and then undoing leaves both e1 and e2 pointing at e1.
   */
  lemma UndoFailsAfterSelfLoop()
    ensures var s := [Entity(0), Anchor(1)];
      && DoMove(Move(0, Anchor(1)), s) == [Anchor(1), Entity(0)]
      && CreateUndoMove(Move(0, Anchor(1)), s) == Move(0, Entity(0))
      && DoMove(Move(0, Entity(0)), DoMove(Move(0, Anchor(1)), s)) == [Entity(0), Entity(0)]
      && [Entity(0), Entity(0)] != s
  {
    var s := [Entity(0), Anchor(1)];
    assert ReadSnapshot(Move(0, Anchor(1)), s) == Snapshot(Entity(0), Some(0), Some(1));
    DoMoveSteps(Move(0, Anchor(1)), s);
    var s1 := [Anchor(1), Entity(0)];
    assert ReadSnapshot(Move(0, Entity(0)), s1) == Snapshot(Anchor(1), Some(1), Some(1));
    DoMoveSteps(Move(0, Entity(0)), s1);
  }
}
