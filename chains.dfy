/**
 * Chained planning variables.
 *
 * Each planning entity has one chained variable whose value is the entity's
 * immediate predecessor: another entity, an anchor (the head of a chain), or
 * null when the entity is unassigned. Entities are identified by their index
 * in the working solution, so entity identity is index equality.
 */
module Chains {

  datatype Option<T> = None | Some(value: T)

  type EntityIndex = nat

  /** A value of the chained variable; `Null` is Java's null (unassigned). */
  datatype Value = Null | Anchor(anchor: nat) | Entity(index: EntityIndex)

  /** The working solution as far as the chained variable goes: `s[e]` is the value of entity `e`. */
  type Solution = seq<Value>

  /**
   * The inverse singleton lookup: the entity whose variable currently equals `v`
   * (the entity trailing `v`), or none. The inverse supply is kept consistent with
   * the working solution, so it is modelled as this function of the solution.
   */
  function InverseSingleton(s: Solution, v: Value): (r: Option<EntityIndex>)
    ensures r.Some? ==> r.value < |s| && s[r.value] == v
    ensures r.None? ==> forall e :: 0 <= e < |s| ==> s[e] != v
    decreases |s|
  {
    if |s| == 0 then None
    else if s[|s| - 1] == v then Some(|s| - 1)
    else InverseSingleton(s[..|s| - 1], v)
  }

  /** Some entity currently has `v` as its value. */
  ghost predicate HasTrailing(s: Solution, v: Value)
  {
    exists e :: 0 <= e < |s| && s[e] == v
  }

  /** Every entity value names an existing entity. */
  ghost predicate InRange(s: Solution)
  {
    forall e :: 0 <= e < |s| && s[e].Entity? ==> s[e].index < |s|
  }

  /** At most one entity points at each non-null value (unassigned entities may be many). */
  ghost predicate SuccessorUnique(s: Solution)
  {
    forall e, f :: 0 <= e < f < |s| && s[e] == s[f] ==> s[e].Null?
  }

  /** Nothing trails an unassigned entity: every chain is rooted at an anchor. */
  ghost predicate UnassignedAreChainEnds(s: Solution)
  {
    forall e, f :: 0 <= e < |s| && 0 <= f < |s| && s[e] == Entity(f) ==> !s[f].Null?
  }

  /** `rank` strictly decreases from every entity to the entity it points at. */
  ghost predicate IsRanking(s: Solution, rank: seq<nat>)
  {
    && |rank| == |s|
    && forall e :: 0 <= e < |s| && s[e].Entity? && s[e].index < |s| ==> rank[s[e].index] < rank[e]
  }

  /** Following predecessors never cycles, so every chain is finite. */
  ghost predicate Acyclic(s: Solution)
  {
    exists rank :: IsRanking(s, rank)
  }

  /** The chain invariant: finite, acyclic, anchored chains with unique successors. */
  ghost predicate ChainsWellFormed(s: Solution)
  {
    InRange(s) && SuccessorUnique(s) && UnassignedAreChainEnds(s) && Acyclic(s)
  }

  /** Under successor uniqueness the inverse lookup finds exactly the entity pointing at `v`. */
  lemma InverseSingletonFinds(s: Solution, v: Value, e: EntityIndex)
    requires SuccessorUnique(s) && !v.Null?
    requires e < |s| && s[e] == v
    ensures InverseSingleton(s, v) == Some(e)
  {
  }

  /** Under successor uniqueness two entities with the same non-null value are the same entity. */
  lemma SameValueSameEntity(s: Solution, a: EntityIndex, b: EntityIndex)
    requires SuccessorUnique(s) && a < |s| && b < |s|
    ensures s[a] == s[b] && !s[a].Null? ==> a == b
  {
  }

  /** An acyclic solution has no entity pointing at itself. */
  lemma AcyclicNoSelfLoop(s: Solution, e: EntityIndex)
    requires Acyclic(s) && e < |s|
    ensures s[e] != Entity(e)
  {
    var rank :| IsRanking(s, rank);
  }
}
