/**
 When filters are deleted the server closes the gaps in the priorities of their domain.  The client
 predicts each survivor's new priority by a formula; it is the renumbering of the survivors in order.
 */
module PriorityCompaction {
  import opened Text

  type Id = string

  /** Each of 1..n is the priority of exactly one peer. */
  predicate IsNumbering(priorities: map<Id, nat>) {
    && (forall a, b :: a in priorities && b in priorities && priorities[a] == priorities[b] ==> a == b)
    && (set a | a in priorities :: priorities[a]) == Upto(|priorities|)
  }

  function Lower(priorities: map<Id, nat>, among: set<Id>, p: nat): set<Id> {
    set a | a in among && a in priorities && priorities[a] < p
  }

  /**
   `_expected_compacted_priority` for one domain whose peers' priorities are given: None when nothing is
   missing, or something that may not be.
   */
  function Expected(priorities: map<Id, nat>, present: set<Id>, mayMiss: set<Id>, id: Id): Option<int>
    requires id in priorities
  {
    var missing := priorities.Keys - present;
    if !IsNumbering(priorities) || missing == {} || !(missing <= mayMiss) then None
    else Some(priorities[id] - |Lower(priorities, missing, priorities[id])|)
  }

  /** No priority is predicted when the old ones are no numbering, nothing is missing, or something that may not be. */
  lemma ExpectedTells(priorities: map<Id, nat>, present: set<Id>, mayMiss: set<Id>, id: Id)
    requires id in priorities
    ensures Expected(priorities, present, mayMiss, id).Some? <==>
              && IsNumbering(priorities) && (exists a :: a in priorities && a !in present)
              && forall a :: a in priorities && a !in present ==> a in mayMiss
  {
    hide IsNumbering;
    if a :| a in priorities && a !in present {
      assert a in priorities.Keys - present;
    }
  }

  /** The place of a survivor among the survivors, counted from 1. */
  function Rank(priorities: map<Id, nat>, survivors: set<Id>, id: Id): nat
    requires id in priorities
  {
    |Lower(priorities, survivors, priorities[id])| + 1
  }

  lemma {:induction false} ImageSize(priorities: map<Id, nat>, among: set<Id>)
    requires among <= priorities.Keys
    requires forall a, b :: a in among && b in among && priorities[a] == priorities[b] ==> a == b
    ensures |set a | a in among :: priorities[a]| == |among|
    decreases |among|
  {
    if among != {} {
      var x :| x in among;
      var rest := among - {x};
      ImageSize(priorities, rest);
      assert (set a | a in among :: priorities[a]) == (set a | a in rest :: priorities[a]) + {priorities[x]};
    }
  }

  /** In a numbering, p - 1 peers come before priority p. */
  lemma LowerCount(priorities: map<Id, nat>, id: Id)
    requires IsNumbering(priorities) && id in priorities
    ensures 1 + |Lower(priorities, priorities.Keys, priorities[id])| == priorities[id]
  {
    var p, all := priorities[id], set a | a in priorities :: priorities[a];
    assert p in all;
    var before := Lower(priorities, priorities.Keys, p);
    var image := set a | a in before :: priorities[a];
    ImageSize(priorities, before);
    forall k: nat | k in Upto(p - 1) ensures k in image {
      assert k in all;
      var a :| a in priorities && priorities[a] == k;
      assert a in before;
    }
    forall k: nat | k in image ensures k in Upto(p - 1) {
      assert k in all;
    }
    assert image == Upto(p - 1);
  }

  /** The formula gives a survivor its place among the survivors. */
  lemma ExpectedIsRank(priorities: map<Id, nat>, present: set<Id>, mayMiss: set<Id>, id: Id)
    requires id in priorities && id in present
    requires Expected(priorities, present, mayMiss, id).Some?
    ensures Expected(priorities, present, mayMiss, id) == Some(Rank(priorities, priorities.Keys * present, id))
  {
    var p, all := priorities[id], priorities.Keys;
    var gone, kept := Lower(priorities, all - present, p), Lower(priorities, all * present, p);
    LowerCount(priorities, id);
    assert Lower(priorities, all, p) == gone + kept && gone !! kept;
  }

  lemma RankOrder(priorities: map<Id, nat>, survivors: set<Id>, a: Id, b: Id)
    requires survivors <= priorities.Keys && a in survivors && b in survivors
    requires priorities[a] < priorities[b]
    ensures Rank(priorities, survivors, a) < Rank(priorities, survivors, b)
  {
    var lowerA, lowerB := Lower(priorities, survivors, priorities[a]), Lower(priorities, survivors, priorities[b]);
    assert a in lowerB && a !in lowerA && lowerA <= lowerB;
    SubsetSize(lowerA + {a}, lowerB);
  }

  /** Among survivors of different priorities, ranks are ordered as priorities are. */
  lemma RanksCompare(priorities: map<Id, nat>, survivors: set<Id>, a: Id, b: Id)
    requires survivors <= priorities.Keys && a in survivors && b in survivors
    requires priorities[a] == priorities[b] ==> a == b
    ensures Rank(priorities, survivors, a) < Rank(priorities, survivors, b) <==> priorities[a] < priorities[b]
    ensures Rank(priorities, survivors, a) == Rank(priorities, survivors, b) ==> a == b
  {
    if priorities[a] < priorities[b] {
      RankOrder(priorities, survivors, a, b);
    } else if priorities[b] < priorities[a] {
      RankOrder(priorities, survivors, b, a);
    }
  }

  lemma RankBound(priorities: map<Id, nat>, survivors: set<Id>, id: Id)
    requires survivors <= priorities.Keys && id in survivors
    ensures 1 <= Rank(priorities, survivors, id) <= |survivors|
  {
    var lower := Lower(priorities, survivors, priorities[id]);
    assert id !in lower && lower <= survivors;
    SubsetSize(lower, survivors - {id});
  }

  /** An injection of m keys into 1..m hits every number. */
  lemma Fills(f: map<Id, nat>)
    requires forall a, b :: a in f && b in f && f[a] == f[b] ==> a == b
    requires forall a :: a in f ==> 1 <= f[a] <= |f|
    ensures (set a | a in f :: f[a]) == Upto(|f|)
  {
    ImageSize(f, f.Keys);
    assert (set a | a in f :: f[a]) == (set a | a in f.Keys :: f[a]);
    SubsetSize(set a | a in f :: f[a], Upto(|f|));
  }

  /** The survivors' new priorities. */
  function Ranks(priorities: map<Id, nat>, survivors: set<Id>): map<Id, nat>
    requires survivors <= priorities.Keys
  {
    map id | id in survivors :: Rank(priorities, survivors, id)
  }

  /** The ranks of the survivors are 1..m, each once. */
  lemma RanksNumber(priorities: map<Id, nat>, survivors: set<Id>)
    requires survivors <= priorities.Keys
    requires forall a, b :: a in survivors && b in survivors && priorities[a] == priorities[b] ==> a == b
    ensures IsNumbering(Ranks(priorities, survivors)) && Ranks(priorities, survivors).Keys == survivors
  {
    var ranks := Ranks(priorities, survivors);
    assert ranks.Keys == survivors;
    forall a, b | a in ranks && b in ranks && ranks[a] == ranks[b] ensures a == b {
      RanksCompare(priorities, survivors, a, b);
    }
    forall a | a in ranks ensures 1 <= ranks[a] <= |ranks| {
      RankBound(priorities, survivors, a);
    }
    Fills(ranks);
  }

  /** The predicted priorities number the survivors 1..n-k, and keep their order. */
  lemma CompactionRenumbers(priorities: map<Id, nat>, present: set<Id>, mayMiss: set<Id>)
    requires IsNumbering(priorities) && priorities.Keys - present != {} && priorities.Keys - present <= mayMiss
    ensures var survivors := priorities.Keys * present;
            && survivors <= priorities.Keys
            && (forall id :: id in survivors ==>
                 Expected(priorities, present, mayMiss, id) == Some(Rank(priorities, survivors, id)))
            && (forall a, b :: a in survivors && b in survivors ==>
                 (Rank(priorities, survivors, a) < Rank(priorities, survivors, b) <==> priorities[a] < priorities[b]))
            && IsNumbering(Ranks(priorities, survivors))
  {
    var survivors := priorities.Keys * present;
    forall id | id in survivors
      ensures Expected(priorities, present, mayMiss, id) == Some(Rank(priorities, survivors, id))
    {
      ExpectedIsRank(priorities, present, mayMiss, id);
    }
    forall a, b | a in survivors && b in survivors
      ensures Rank(priorities, survivors, a) < Rank(priorities, survivors, b) <==> priorities[a] < priorities[b]
    {
      RanksCompare(priorities, survivors, a, b);
    }
    RanksNumber(priorities, survivors);
  }
}
