/**
 * What the chained change move guarantees: the shape and order of its writes,
 * the new value of every entity, preservation of the chain invariant, and the
 * undo round trip.
 */
module ChainedChangeProperties {
  import opened Chains
  import opened ScoreDirectors
  import opened ChainedChange

  /** Performing at most one write. */
  lemma ApplyAtMostOneChange(s: Solution, cs: seq<Change>)
    requires |cs| <= 1 && ChangesWithin(cs, |s|)
    ensures ApplyChanges(s, cs) == if cs == [] then s else s[cs[0].entity := cs[0].value]
  {
  }

  /** The move as three successive updates of the solution. */
  lemma DoMoveSteps(m: ChainedChangeMove, s: Solution)
    requires m.entity < |s|
    ensures var snap := ReadSnapshot(m, s);
      var closed := if snap.oldTrailingEntity.Some? then s[snap.oldTrailingEntity.value := s[m.entity]] else s;
      var relocated := closed[m.entity := m.toPlanningValue];
      DoMove(m, s) ==
        if snap.newTrailingEntity.Some? then relocated[snap.newTrailingEntity.value := Entity(m.entity)] else relocated
  {
    var snap := ReadSnapshot(m, s);
    var closing, relocating, rerouting := ClosingChanges(snap), [Change(m.entity, m.toPlanningValue)], ReroutingChanges(m, snap);
    ApplyChangesAppend(s, closing, relocating);
    ApplyChangesAppend(s, closing + relocating, rerouting);
    ApplyAtMostOneChange(s, closing);
    ApplyAtMostOneChange(ApplyChanges(s, closing), relocating);
    ApplyAtMostOneChange(ApplyChanges(s, closing + relocating), rerouting);
  }

  /** The value of every entity after the move, read off the snapshot; the last write wins. */
  lemma DoMoveAt(m: ChainedChangeMove, s: Solution)
    requires m.entity < |s|
    ensures |DoMove(m, s)| == |s|
    ensures var snap := ReadSnapshot(m, s);
      forall x :: 0 <= x < |s| ==>
        DoMove(m, s)[x] ==
          if snap.newTrailingEntity == Some(x) then Entity(m.entity)
          else if x == m.entity then m.toPlanningValue
          else if snap.oldTrailingEntity == Some(x) then s[m.entity]
          else s[x]
  {
    DoMoveSteps(m, s);
  }

  /**
   * The writes, in order: zero or one write of the entity's old value to the
   * entity that trailed it, then the entity's own write, then zero or one write
   * of the entity to whatever trailed the target. Every written value is read
   * from the solution before the move, and the reroute is skipped for a null target.
   */
  lemma PlanShape(m: ChainedChangeMove, s: Solution)
    requires m.entity < |s|
    ensures var cs := Plan(m, s);
      var i := if HasTrailing(s, Entity(m.entity)) then 1 else 0;
      && |cs| == i + 1 + (if !m.toPlanningValue.Null? && HasTrailing(s, m.toPlanningValue) then 1 else 0)
      && cs[i] == Change(m.entity, m.toPlanningValue)
      && (forall k :: 0 <= k < i ==> s[cs[k].entity] == Entity(m.entity) && cs[k].value == s[m.entity])
      && (forall k :: i < k < |cs| ==> s[cs[k].entity] == m.toPlanningValue && cs[k].value == Entity(m.entity))
  {
  }

  /** Unless it already sat behind a non-null target, the entity ends up with the target as its value. */
  lemma MovedEntityTakesTarget(m: ChainedChangeMove, s: Solution)
    requires m.entity < |s|
    requires s[m.entity] != m.toPlanningValue || m.toPlanningValue.Null?
    ensures DoMove(m, s)[m.entity] == m.toPlanningValue
  {
    DoMoveAt(m, s);
  }

  /** Close the old chain: the entity that trailed the moved entity now points at its old value. */
  lemma CloseOldChain(m: ChainedChangeMove, s: Solution, trailing: EntityIndex)
    requires m.entity < |s| && SuccessorUnique(s) && !IsSelfAttach(m)
    requires trailing < |s| && trailing != m.entity && s[trailing] == Entity(m.entity)
    ensures DoMove(m, s)[trailing] == s[m.entity]
  {
    DoMoveAt(m, s);
    InverseSingletonFinds(s, Entity(m.entity), trailing);
  }

  /** Reroute the new chain: the entity that trailed a non-null target now trails the moved entity. */
  lemma RerouteNewChain(m: ChainedChangeMove, s: Solution, trailing: EntityIndex)
    requires m.entity < |s| && SuccessorUnique(s) && !m.toPlanningValue.Null?
    requires trailing < |s| && s[trailing] == m.toPlanningValue
    ensures DoMove(m, s)[trailing] == Entity(m.entity)
  {
    DoMoveAt(m, s);
    InverseSingletonFinds(s, m.toPlanningValue, trailing);
  }

  /** No entity other than the moved one and the two that trail it or the target changes. */
  lemma DoMoveFrame(m: ChainedChangeMove, s: Solution, x: EntityIndex)
    requires m.entity < |s| && x < |s| && x != m.entity
    requires s[x] != Entity(m.entity)
    requires m.toPlanningValue.Null? || s[x] != m.toPlanningValue
    ensures DoMove(m, s)[x] == s[x]
  {
    DoMoveAt(m, s);
  }

  /** After a move that is not a self-attach, two entities never share a non-null value. */
  lemma DistinctAfterMove(m: ChainedChangeMove, s: Solution, a: EntityIndex, b: EntityIndex)
    requires m.entity < |s| && SuccessorUnique(s) && !IsSelfAttach(m)
    requires a < |s| && b < |s| && a != b
    requires !DoMove(m, s)[a].Null?
    ensures DoMove(m, s)[a] != DoMove(m, s)[b]
  {
    var e, v := m.entity, m.toPlanningValue;
    var s' := DoMove(m, s);
    var snap := ReadSnapshot(m, s);
    var trailingEntity, trailingTarget := snap.oldTrailingEntity, snap.newTrailingEntity;
    var t := if trailingEntity.Some? then trailingEntity.value else e;
    var n := if trailingTarget.Some? then trailingTarget.value else e;
    DoMoveAt(m, s);
    // Each of a and b is the target's trailing entity, the moved entity, the
    // entity's trailing entity or untouched; uniqueness before the move rules
    // out every pairing.
    SameValueSameEntity(s, a, b);
    SameValueSameEntity(s, a, e);
    SameValueSameEntity(s, b, e);
    SameValueSameEntity(s, a, t);
    SameValueSameEntity(s, b, t);
    SameValueSameEntity(s, a, n);
    SameValueSameEntity(s, b, n);
    SameValueSameEntity(s, t, e);
    SameValueSameEntity(s, n, e);
  }

  /** A move that is not a self-attach keeps at most one entity behind every value. */
  lemma DoMovePreservesSuccessorUnique(m: ChainedChangeMove, s: Solution)
    requires m.entity < |s| && SuccessorUnique(s) && !IsSelfAttach(m)
    ensures SuccessorUnique(DoMove(m, s))
  {
    var s' := DoMove(m, s);
    DoMoveAt(m, s);
    forall a, b | 0 <= a < b < |s'| && s'[a] == s'[b] ensures s'[a].Null? {
      if !s'[a].Null? {
        DistinctAfterMove(m, s, a, b);
      }
    }
  }

  /** Doable moves keep successor uniqueness, whatever the inherited check decides. */
  lemma DoableMovePreservesSuccessorUnique(
    m: ChainedChangeMove, s: Solution, changeMoveDoable: (EntityIndex, Value, Solution) -> bool)
    requires m.entity < |s| && SuccessorUnique(s)
    requires IsMoveDoable(m, s, changeMoveDoable)
    ensures SuccessorUnique(DoMove(m, s))
  {
    DoMovePreservesSuccessorUnique(m, s);
  }

  /** Entity values stay within the solution when an entity target is. */
  lemma DoMovePreservesInRange(m: ChainedChangeMove, s: Solution)
    requires m.entity < |s| && InRange(s)
    requires m.toPlanningValue.Entity? ==> m.toPlanningValue.index < |s|
    ensures InRange(DoMove(m, s))
  {
    DoMoveAt(m, s);
  }

  /** Nothing comes to trail an unassigned entity when an entity target is assigned. */
  lemma DoMovePreservesChainEnds(m: ChainedChangeMove, s: Solution)
    requires m.entity < |s| && SuccessorUnique(s) && UnassignedAreChainEnds(s)
    requires !IsSelfAttach(m) && s[m.entity] != Entity(m.entity)
    requires m.toPlanningValue.Entity? && m.toPlanningValue.index < |s| ==> !s[m.toPlanningValue.index].Null?
    ensures UnassignedAreChainEnds(DoMove(m, s))
  {
    var e := m.entity;
    var s' := DoMove(m, s);
    var snap := ReadSnapshot(m, s);
    var t := if snap.oldTrailingEntity.Some? then snap.oldTrailingEntity.value else e;
    DoMoveAt(m, s);
    forall x, y | 0 <= x < |s'| && 0 <= y < |s'| && s'[x] == Entity(y)
      ensures !s'[y].Null?
    {
      SameValueSameEntity(s, x, t);
    }
  }

  /**
   * A move that changes the entity's value to an admissible target keeps the
   * chain invariant: an entity target exists and is assigned, and differs from
   * the entity and from its current value.
   */
  lemma DoMovePreservesChains(m: ChainedChangeMove, s: Solution)
    requires m.entity < |s| && ChainsWellFormed(s)
    requires !IsSelfAttach(m) && s[m.entity] != m.toPlanningValue
    requires m.toPlanningValue.Entity? ==>
      m.toPlanningValue.index < |s| && !s[m.toPlanningValue.index].Null?
    ensures ChainsWellFormed(DoMove(m, s))
  {
    AcyclicNoSelfLoop(s, m.entity);
    DoMovePreservesInRange(m, s);
    DoMovePreservesSuccessorUnique(m, s);
    DoMovePreservesChainEnds(m, s);
    DoMovePreservesAcyclic(m, s);
  }

  /**
   * No cycle appears when the target is neither the entity itself nor its
   * current value: the moved entity is ranked just above its new predecessor,
   * every other entity keeps (twice) its old rank.
   */
  lemma DoMovePreservesAcyclic(m: ChainedChangeMove, s: Solution)
    requires m.entity < |s| && SuccessorUnique(s) && Acyclic(s)
    requires !IsSelfAttach(m) && s[m.entity] != m.toPlanningValue
    ensures Acyclic(DoMove(m, s))
  {
    var e, v := m.entity, m.toPlanningValue;
    var rank :| IsRanking(s, rank);
    var rank' := seq(|s|, x requires 0 <= x < |s| =>
      if x == e then (if v.Entity? && v.index < |s| then 2 * rank[v.index] + 3 else 1)
      else 2 * rank[x] + 2);
    var s' := DoMove(m, s);
    var snap := ReadSnapshot(m, s);
    DoMoveAt(m, s);
    AcyclicNoSelfLoop(s, e);
    forall x | 0 <= x < |s'| && s'[x].Entity? && s'[x].index < |s'|
      ensures rank'[s'[x].index] < rank'[x]
    {
      var y := s'[x].index;
      if snap.newTrailingEntity == Some(x) {
        assert y == e && s[x] == v;
      } else if x == e {
        assert s'[x] == v && y != e;
      } else if snap.oldTrailingEntity == Some(x) {
        assert s[x] == Entity(e) && s'[x] == s[e] && y != e;
        assert rank[y] < rank[e] < rank[x];
      } else {
        assert s'[x] == s[x];
        if y == e {
          InverseSingletonFinds(s, Entity(e), x);
        }
        assert rank[y] < rank[x];
      }
    }
    assert IsRanking(s', rank');
  }

  /**
   * The code reads every fact before writing, so when the entity already sits
   * behind a non-null target it is that target's trailing entity: the last
   * write makes it point at itself, and the result has a cycle.
   */
  lemma SameValueMoveSelfLoops(m: ChainedChangeMove, s: Solution)
    requires m.entity < |s| && SuccessorUnique(s) && !IsSelfAttach(m)
    requires !m.toPlanningValue.Null? && s[m.entity] == m.toPlanningValue
    ensures DoMove(m, s)[m.entity] == Entity(m.entity)
    ensures DoMove(m, s) != s
    ensures !Acyclic(DoMove(m, s))
  {
    DoMoveAt(m, s);
    InverseSingletonFinds(s, m.toPlanningValue, m.entity);
    if Acyclic(DoMove(m, s)) {
      AcyclicNoSelfLoop(DoMove(m, s), m.entity);
    }
  }

  /** What the undo move reads after a move onto the value the entity already had. */
  lemma UndoSnapshotOfSameValueMove(m: ChainedChangeMove, s: Solution)
    requires m.entity < |s| && SuccessorUnique(s) && !IsSelfAttach(m)
    requires !m.toPlanningValue.Null? && s[m.entity] == m.toPlanningValue
    ensures ReadSnapshot(CreateUndoMove(m, s), DoMove(m, s))
      == Snapshot(Entity(m.entity), Some(m.entity), ReadSnapshot(m, s).oldTrailingEntity)
  {
    var e, v := m.entity, m.toPlanningValue;
    var snap := ReadSnapshot(m, s);
    var s1 := DoMove(m, s);
    DoMoveAt(m, s);
    DoMovePreservesSuccessorUnique(m, s);
    InverseSingletonFinds(s, v, e);
    assert s1[e] == Entity(e);
    InverseSingletonFinds(s1, Entity(e), e);
    if snap.oldTrailingEntity.Some? {
      InverseSingletonFinds(s1, v, snap.oldTrailingEntity.value);
    } else {
      forall x | 0 <= x < |s1| ensures s1[x] != v {
      }
    }
  }

  /** What the undo move reads after a move that gave the entity its target as value. */
  lemma UndoSnapshotOfRelocatingMove(m: ChainedChangeMove, s: Solution)
    requires m.entity < |s| && SuccessorUnique(s) && UnassignedAreChainEnds(s)
    requires !IsSelfAttach(m) && s[m.entity] != Entity(m.entity)
    requires m.toPlanningValue.Null? || s[m.entity] != m.toPlanningValue
    ensures var snap := ReadSnapshot(m, s);
      ReadSnapshot(CreateUndoMove(m, s), DoMove(m, s))
        == Snapshot(m.toPlanningValue, snap.newTrailingEntity,
                    if s[m.entity].Null? then None else snap.oldTrailingEntity)
  {
    var e, v := m.entity, m.toPlanningValue;
    var snap := ReadSnapshot(m, s);
    var s1 := DoMove(m, s);
    DoMoveAt(m, s);
    DoMovePreservesSuccessorUnique(m, s);
    assert s1[e] == v;
    if snap.newTrailingEntity.Some? {
      InverseSingletonFinds(s1, Entity(e), snap.newTrailingEntity.value);
    } else {
      forall x | 0 <= x < |s1| ensures s1[x] != Entity(e) {
        if s[x] == Entity(e) && x != e {
          InverseSingletonFinds(s, Entity(e), x);
        }
      }
    }
    if s[e].Null? {
      assert snap.oldTrailingEntity.None?;
    } else if snap.oldTrailingEntity.Some? {
      InverseSingletonFinds(s1, s[e], snap.oldTrailingEntity.value);
    } else {
      forall x | 0 <= x < |s1| ensures s1[x] != s[e] {
      }
    }
  }

  /** The undo round trip when the entity did not already sit behind a non-null target. */
  lemma UndoRoundTripOfRelocatingMove(m: ChainedChangeMove, s: Solution)
    requires m.entity < |s| && SuccessorUnique(s) && UnassignedAreChainEnds(s)
    requires !IsSelfAttach(m) && s[m.entity] != Entity(m.entity)
    requires m.toPlanningValue.Null? || s[m.entity] != m.toPlanningValue
    ensures DoMove(CreateUndoMove(m, s), DoMove(m, s)) == s
  {
    var e, v := m.entity, m.toPlanningValue;
    var snap := ReadSnapshot(m, s);
    var undo := CreateUndoMove(m, s);
    var s1 := DoMove(m, s);
    var s2 := DoMove(undo, s1);
    DoMoveAt(m, s);
    UndoSnapshotOfRelocatingMove(m, s);
    DoMoveAt(undo, s1);
    forall x | 0 <= x < |s| ensures s2[x] == s[x] {
      if snap.oldTrailingEntity == Some(x) {
        assert x != e && s[x] == Entity(e) && !s[e].Null?;
      } else if x == e {
        assert s2[x] == s[e];
      } else if snap.newTrailingEntity == Some(x) {
        assert s2[x] == s1[e] == v;
      } else {
        assert s1[x] == s[x];
        SameValueSameEntity(s, x, e);
      }
    }
  }

  /** The undo round trip when the entity already sat behind its non-null target. */
  lemma UndoRoundTripOfSameValueMove(m: ChainedChangeMove, s: Solution)
    requires m.entity < |s| && SuccessorUnique(s) && !IsSelfAttach(m)
    requires !m.toPlanningValue.Null? && s[m.entity] == m.toPlanningValue
    ensures DoMove(CreateUndoMove(m, s), DoMove(m, s)) == s
  {
    var e, v := m.entity, m.toPlanningValue;
    var snap := ReadSnapshot(m, s);
    var undo := CreateUndoMove(m, s);
    var s1 := DoMove(m, s);
    var s2 := DoMove(undo, s1);
    DoMoveAt(m, s);
    InverseSingletonFinds(s, v, e);
    UndoSnapshotOfSameValueMove(m, s);
    DoMoveAt(undo, s1);
    forall x | 0 <= x < |s| ensures s2[x] == s[x] {
      if snap.oldTrailingEntity == Some(x) {
        assert x != e && s2[x] == Entity(e) == s[x];
      } else if x == e {
        assert s2[x] == v;
      } else {
        assert s1[x] == s[x];
      }
    }
  }

  /**
   * Undo round trip: capture the undo move, do the move, do the undo move;
   * every entity has its original value again.
   */
  lemma UndoRoundTrip(m: ChainedChangeMove, s: Solution)
    requires m.entity < |s| && SuccessorUnique(s) && UnassignedAreChainEnds(s)
    requires !IsSelfAttach(m) && s[m.entity] != Entity(m.entity)
    ensures var undo := CreateUndoMove(m, s);
      DoMove(undo, DoMove(m, s)) == s
  {
    if !m.toPlanningValue.Null? && s[m.entity] == m.toPlanningValue {
      UndoRoundTripOfSameValueMove(m, s);
    } else {
      UndoRoundTripOfRelocatingMove(m, s);
    }
  }

  /** On well-formed chains, every move that is not a self-attach is undone by its captured undo move. */
  lemma WellFormedUndoRoundTrip(m: ChainedChangeMove, s: Solution)
    requires m.entity < |s| && ChainsWellFormed(s) && !IsSelfAttach(m)
    ensures DoMove(CreateUndoMove(m, s), DoMove(m, s)) == s
  {
    AcyclicNoSelfLoop(s, m.entity);
    UndoRoundTrip(m, s);
  }
}
