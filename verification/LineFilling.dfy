/** Filling lines from left to right. Items 0, 1, ..., n-1 are split into consecutive groups by the positions
    where each group starts, followed by n. A group that may not fit on its own is still started when it
    holds a single item. */
module LineFilling {

  type Fits = (nat, nat) -> bool

  /** A part of a group that fits, fits. */
  ghost predicate Hereditary(fits: Fits, n: nat) {
    forall i: nat, i': nat, j': nat, j: nat {:trigger fits(i, j), fits(i', j')}
      | i <= i' < j' <= j <= n && fits(i, j) :: fits(i', j')
  }

  predicate Increasing(cuts: seq<nat>) {
    |cuts| > 0 && forall a, b | 0 <= a < b < |cuts| :: cuts[a] < cuts[b]
  }

  /** The cut positions are positions among `n` items. */
  predicate Within(cuts: seq<nat>, n: nat) {
    Increasing(cuts) && cuts[|cuts| - 1] <= n
  }

  predicate Cuts(cuts: seq<nat>, n: nat) {
    Increasing(cuts) && cuts[0] == 0 && cuts[|cuts| - 1] == n
  }

  predicate GroupFits(cuts: seq<nat>, k: nat, fits: Fits)
    requires k + 1 < |cuts|
  {
    fits(cuts[k], cuts[k + 1])
  }

  predicate GroupIsSingle(cuts: seq<nat>, k: nat)
    requires k + 1 < |cuts|
  {
    cuts[k + 1] == cuts[k] + 1
  }

  /** The group would not fit with one item more. */
  predicate GroupIsFull(cuts: seq<nat>, k: nat, fits: Fits)
    requires k + 1 < |cuts|
  {
    !fits(cuts[k], cuts[k + 1] + 1)
  }

  /** A split in which every group fits. */
  predicate Valid(cuts: seq<nat>, n: nat, fits: Fits) {
    Cuts(cuts, n) && forall k: nat | k < |cuts| - 1 :: GroupFits(cuts, k, fits)
  }

  /** Every group but the last is full, and only single items are allowed not to fit. */
  predicate Greedy(cuts: seq<nat>, n: nat, fits: Fits) {
    && Cuts(cuts, n)
    && (forall k: nat | k < |cuts| - 2 :: GroupIsFull(cuts, k, fits))
    && forall k: nat | k < |cuts| - 1 :: GroupIsSingle(cuts, k) || GroupFits(cuts, k, fits)
  }

  /** The exchange argument: no valid split ever gets further than the greedy one in the same number of lines. */
  lemma {:induction false} GreedyIsAhead(greedy: seq<nat>, other: seq<nat>, n: nat, fits: Fits, k: nat)
    requires Hereditary(fits, n) && Greedy(greedy, n, fits) && Valid(other, n, fits)
    requires k < |greedy| && k < |other|
    ensures other[k] <= greedy[k]
  {
    if 0 < k < |greedy| - 1 {
      GreedyIsAhead(greedy, other, n, fits, k - 1);
      assert GroupFits(other, k - 1, fits);
      assert GroupIsFull(greedy, k - 1, fits);
      assert greedy[k - 1] < greedy[k];
      assert fits(other[k - 1], other[k]) && !fits(greedy[k - 1], greedy[k] + 1);
      assert k == |other| - 1 || other[k] < other[|other| - 1];
    } else if k == |greedy| - 1 {
      assert k == |other| - 1 || other[k] < other[|other| - 1];
    }
  }

  /** No valid split uses fewer groups. */
  lemma GreedyIsShortest(greedy: seq<nat>, other: seq<nat>, n: nat, fits: Fits)
    requires Hereditary(fits, n) && Greedy(greedy, n, fits) && Valid(other, n, fits)
    ensures |greedy| <= |other|
  {
    if |other| < |greedy| {
      GreedyIsAhead(greedy, other, n, fits, |other| - 1);
    }
  }

  /** When any valid split exists, the greedy one is valid. */
  lemma GreedyIsValid(greedy: seq<nat>, other: seq<nat>, n: nat, fits: Fits)
    requires Hereditary(fits, n) && Greedy(greedy, n, fits) && Valid(other, n, fits)
    ensures Valid(greedy, n, fits)
  {
    forall k: nat | k < |greedy| - 1 ensures GroupFits(greedy, k, fits) {
      if GroupIsSingle(greedy, k) {
        assert greedy[k] < greedy[|greedy| - 1];
        var m: nat := 0;
        while other[m + 1] <= greedy[k]
          invariant m + 1 < |other| && other[m] <= greedy[k]
          decreases |other| - m
        {
          assert m + 1 < |other| - 1;
          m := m + 1;
        }
        assert GroupFits(other, m, fits);
        assert m + 1 == |other| - 1 || other[m + 1] < other[|other| - 1];
      }
    }
  }

  /** Among all valid splits the greedy one is the shortest, and it is valid as soon as there is one. */
  lemma GreedyIsOptimal(greedy: seq<nat>, n: nat, fits: Fits)
    requires Hereditary(fits, n) && Greedy(greedy, n, fits)
    ensures forall other | Valid(other, n, fits) :: |greedy| <= |other| && Valid(greedy, n, fits)
  {
    forall other | Valid(other, n, fits) ensures |greedy| <= |other| && Valid(greedy, n, fits) {
      GreedyIsShortest(greedy, other, n, fits);
      GreedyIsValid(greedy, other, n, fits);
    }
  }

  // ----- building the greedy split

  /** The closed groups of a greedy split, and an open one that starts at the last position and holds the
      items up to i - 1. */
  predicate Opened(cuts: seq<nat>, i: nat, fits: Fits) {
    && Increasing(cuts) && cuts[0] == 0 && cuts[|cuts| - 1] <= i
    && (forall k: nat | k < |cuts| - 1 :: GroupIsFull(cuts, k, fits))
    && (forall k: nat | k < |cuts| - 1 :: GroupIsSingle(cuts, k) || GroupFits(cuts, k, fits))
    && (cuts[|cuts| - 1] == i ==> i == 0)
    && (cuts[|cuts| - 1] < i ==> i == cuts[|cuts| - 1] + 1 || fits(cuts[|cuts| - 1], i))
  }

  lemma OldGroups(cuts: seq<nat>, i: nat, k: nat, fits: Fits)
    requires k + 1 < |cuts|
    ensures GroupIsFull(cuts + [i], k, fits) == GroupIsFull(cuts, k, fits)
    ensures GroupFits(cuts + [i], k, fits) == GroupFits(cuts, k, fits)
    ensures GroupIsSingle(cuts + [i], k) == GroupIsSingle(cuts, k)
  {
    assert (cuts + [i])[k] == cuts[k] && (cuts + [i])[k + 1] == cuts[k + 1];
  }

  /** The open group is closed because item i does not fit; item i opens the next one. */
  lemma OpenNext(cuts: seq<nat>, i: nat, fits: Fits)
    requires Opened(cuts, i, fits) && cuts[|cuts| - 1] < i && !fits(cuts[|cuts| - 1], i + 1)
    ensures Opened(cuts + [i], i + 1, fits)
  {
    var next := cuts + [i];
    forall k: nat | k < |next| - 1
      ensures GroupIsFull(next, k, fits) && (GroupIsSingle(next, k) || GroupFits(next, k, fits))
    {
      if k + 1 < |cuts| {
        OldGroups(cuts, i, k, fits);
      }
    }
  }

  /** Item i joins the open group. */
  lemma StayOpen(cuts: seq<nat>, i: nat, fits: Fits)
    requires Opened(cuts, i, fits) && (cuts[|cuts| - 1] == i || fits(cuts[|cuts| - 1], i + 1))
    ensures Opened(cuts, i + 1, fits)
  {
  }

  function Complete(cuts: seq<nat>, n: nat): seq<nat>
    requires |cuts| > 0
  {
    if cuts[|cuts| - 1] < n then cuts + [n] else cuts
  }

  lemma CloseLast(cuts: seq<nat>, n: nat, fits: Fits)
    requires Opened(cuts, n, fits)
    ensures Greedy(Complete(cuts, n), n, fits)
  {
    if cuts[|cuts| - 1] < n {
      var all := cuts + [n];
      forall k: nat | k < |all| - 1
        ensures k < |all| - 2 ==> GroupIsFull(all, k, fits)
        ensures GroupIsSingle(all, k) || GroupFits(all, k, fits)
      {
        if k + 1 < |cuts| {
          OldGroups(cuts, n, k, fits);
        }
      }
    }
  }

  // ----- splits, without positions

  /** One group behind the other. */
  function Glued<T>(groups: seq<seq<T>>): seq<T> {
    if groups == [] then [] else Glued(groups[..|groups| - 1]) + groups[|groups| - 1]
  }

  /** Where the groups start, and the end. */
  function Starts<T>(groups: seq<seq<T>>): (cuts: seq<nat>)
    ensures |cuts| == |groups| + 1 && cuts[0] == 0 && cuts[|groups|] == |Glued(groups)|
  {
    if groups == [] then [0] else Starts(groups[..|groups| - 1]) + [|Glued(groups)|]
  }

  lemma {:induction false} GroupLies<T>(groups: seq<seq<T>>, k: nat)
    requires k < |groups|
    ensures Starts(groups)[k] <= Starts(groups)[k + 1] <= |Glued(groups)|
    ensures Glued(groups)[Starts(groups)[k]..Starts(groups)[k + 1]] == groups[k]
    decreases |groups|
  {
    var n := |groups| - 1;
    var front := groups[..n];
    if k < n {
      GroupLies(front, k);
      assert Glued(groups)[Starts(groups)[k]..Starts(groups)[k + 1]] == Glued(front)[Starts(front)[k]..Starts(front)[k + 1]];
    }
  }

  lemma {:induction false} StartsAscend<T>(groups: seq<seq<T>>)
    requires forall k | 0 <= k < |groups| :: groups[k] != []
    ensures Cuts(Starts(groups), |Glued(groups)|)
    decreases |groups|
  {
    if groups != [] {
      StartsAscend(groups[..|groups| - 1]);
    }
  }
}
