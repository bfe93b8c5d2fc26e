/**
 * The score director as far as a move sees it: the only way to change a
 * variable is `ChangeVariableFacade`, which writes one entity's value. The
 * incremental score calculation behind it is not modelled; instead every
 * write is recorded in a ghost change log.
 */
module ScoreDirectors {
  import opened Chains

  /** One primitive write "entity.var := value". */
  datatype Change = Change(entity: EntityIndex, value: Value)

  /** Every change writes an existing entity. */
  predicate ChangesWithin(cs: seq<Change>, n: nat)
  {
    forall k :: 0 <= k < |cs| ==> cs[k].entity < n
  }

  /** The solution after performing the writes `cs` in order, the last write to an entity winning. */
  function ApplyChanges(s: Solution, cs: seq<Change>): (r: Solution)
    requires ChangesWithin(cs, |s|)
    ensures |r| == |s|
    decreases |cs|
  {
    if cs == [] then s
    else ApplyChanges(s, cs[..|cs| - 1])[cs[|cs| - 1].entity := cs[|cs| - 1].value]
  }

  /**
   * An entity that no change writes keeps its value; an entity that some
   * change writes ends with the value of the last change that writes it.
   */
  lemma {:induction false} ApplyChangesAt(s: Solution, cs: seq<Change>, e: EntityIndex)
    requires ChangesWithin(cs, |s|) && e < |s|
    ensures (forall k :: 0 <= k < |cs| ==> cs[k].entity != e) ==> ApplyChanges(s, cs)[e] == s[e]
    ensures forall k ::
      (0 <= k < |cs| && cs[k].entity == e && (forall j :: k < j < |cs| ==> cs[j].entity != e))
      ==> ApplyChanges(s, cs)[e] == cs[k].value
    decreases |cs|
  {
    if cs != [] {
      var init := cs[..|cs| - 1];
      ApplyChangesAt(s, init, e);
      assert forall k :: 0 <= k < |init| ==> init[k] == cs[k];
    }
  }

  /** Performing `a` and then `b` is performing `a + b`. */
  lemma {:induction false} ApplyChangesAppend(s: Solution, a: seq<Change>, b: seq<Change>)
    requires ChangesWithin(a, |s|) && ChangesWithin(b, |s|)
    ensures ChangesWithin(a + b, |s|)
    ensures ApplyChanges(s, a + b) == ApplyChanges(ApplyChanges(s, a), b)
    decreases |b|
  {
    if b != [] {
      var b' := b[..|b| - 1];
      assert (a + b)[..|a + b| - 1] == a + b';
      ApplyChangesAppend(s, a, b');
    } else {
      assert a + b == a;
    }
  }

  class ScoreDirector {
    /** The chained variable of every entity of the working solution. */
    var workingSolution: Solution
    /** The solution the director started from. */
    ghost var origin: Solution
    /** Every write made through `ChangeVariableFacade`, in order. */
    ghost var changeLog: seq<Change>

    /** The change log explains the working solution. */
    ghost predicate Valid()
      reads this
    {
      && |origin| == |workingSolution|
      && ChangesWithin(changeLog, |origin|)
      && workingSolution == ApplyChanges(origin, changeLog)
    }

    constructor (s: Solution)
      ensures Valid()
      ensures workingSolution == s && origin == s && changeLog == []
    {
      workingSolution := s;
      origin := s;
      changeLog := [];
    }

    /** Sets one entity's variable; nothing else changes and the write is logged. */
    method ChangeVariableFacade(entity: EntityIndex, value: Value)
      requires Valid() && entity < |workingSolution|
      modifies this
      ensures Valid() && origin == old(origin)
      ensures workingSolution == old(workingSolution)[entity := value]
      ensures changeLog == old(changeLog) + [Change(entity, value)]
    {
      ApplyChangesAppend(origin, changeLog, [Change(entity, value)]);
      workingSolution := workingSolution[entity := value];
      changeLog := changeLog + [Change(entity, value)];
    }
  }
}
