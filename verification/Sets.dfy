/** Counting facts about finite sets. */
module Sets {

  lemma GrownByOne(a: set<nat>, b: set<nat>, k: nat, more: bool)
    requires k !in a && forall i :: i in b <==> i in a || (more && i == k)
    ensures |b| == |a| + if more then 1 else 0
  {
    if more {
      assert b == a + {k};
    } else {
      assert b == a;
    }
  }

  /** Tagging the members of a set with one tag keeps their number. */
  lemma {:induction false} TaggedSize<T>(tag: T, members: set<nat>, pairs: set<(nat, T)>)
    requires pairs == set i | i in members :: (i, tag)
    ensures |pairs| == |members|
    decreases members
  {
    if members != {} {
      var i :| i in members;
      assert pairs - {(i, tag)} == set j | j in members - {i} :: (j, tag);
      TaggedSize(tag, members - {i}, pairs - {(i, tag)});
    }
  }

  lemma Disjoint<T>(a: set<T>, b: set<T>, all: set<T>)
    requires all == a + b && a !! b
    ensures |all| == |a| + |b|
  {
  }
}
