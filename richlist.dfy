/** The rich-list transform: scan the snapshot in descending balance order,
    keep the listed entries, count them and add up their balances, and pack
    the result with its timestamp into the artifact that is written out. */
module RichList {
  import opened Snapshot
  import opened StableSort

  /** The written artifact. Balances and the total are raw integers; the
      file shows them divided by 10^8. */
  datatype Artifact = Artifact(
    lastUpdated: string,
    holders: seq<Holder>,
    totalBalance: int,
    holderCount: nat)

  /** The holder records of a snapshot: its listed entries in the order of
      the stable descending sort. */
  function Holders(states: seq<Entry>): seq<Holder> {
    Listed(SortDesc(states))
  }

  /** The artifact one cycle produces from a snapshot at time now. */
  function ArtifactOf(now: string, states: seq<Entry>): Artifact {
    var holders := Holders(states);
    Artifact(now, holders, Total(holders), |holders|)
  }

  /** The scan over the sorted snapshot: the counter n, the running total
      and the holders list are updated entry by entry. */
  method BuildRichList(now: string, states: seq<Entry>) returns (list: Artifact)
    ensures list.lastUpdated == now
    ensures list.holders == Holders(states)
    ensures list.holderCount == |list.holders|
    ensures list.totalBalance == Total(list.holders)
  {
    var sorted := SortByBalance(states);
    var holders: seq<Holder> := [];
    var totalBalance := 0;
    var n: nat := 0;
    for i := 0 to |sorted|
      invariant holders == Listed(sorted[..i])
      invariant n == |holders|
      invariant totalBalance == Total(holders)
    {
      var e := sorted[i];
      assert sorted[..i + 1][..i] == sorted[..i];
      if |e.address| == ADDRESS_LENGTH && e.balance > 0 {
        n := n + 1;
        totalBalance := totalBalance + e.balance;
        holders := holders + [e];
        assert holders[..|holders| - 1] == holders[..n - 1];
      }
    }
    assert sorted[..|sorted|] == sorted;
    list := Artifact(now, holders, totalBalance, n);
  }

  /** Holders are listed in non-increasing balance order. */
  lemma HoldersSorted(states: seq<Entry>)
    ensures Sorted(Holders(states))
  {
    ListedSort(states);
    SortSorted(Listed(states));
  }

  /** Each holder record has a 35-character address and a positive balance,
      and is an entry of the snapshot. */
  lemma HoldersSound(states: seq<Entry>)
    ensures forall h :: h in Holders(states) ==> IsListed(h) && h in states
  {
    var sorted := SortDesc(states);
    SortPermutes(states);
    forall h | h in Holders(states) ensures IsListed(h) && h in states {
      assert h in sorted;
      assert h in multiset(sorted);
    }
  }

  /** Holders are the listed entries of the snapshot, each as often as it
      occurs there, and nothing else. */
  lemma HoldersPermuteListed(states: seq<Entry>)
    ensures multiset(Holders(states)) == multiset(Listed(states))
  {
    ListedSort(states);
    SortPermutes(Listed(states));
  }

  /** With distinct addresses, every listed snapshot entry is one holder
      record exactly once, and no other record appears. */
  lemma HoldersExactlyOnce(states: seq<Entry>, e: Entry)
    requires DistinctAddresses(states)
    ensures multiset(Holders(states))[e] == if e in states && IsListed(e) then 1 else 0
  {
    HoldersPermuteListed(states);
    FilterCount(states, IsListed, e);
    if e in states {
      DistinctOccursOnce(states, e);
    }
  }

  /** Records of equal balance keep the order of their entries in the snapshot. */
  lemma HoldersStable(states: seq<Entry>, v: int)
    ensures WithBalance(Holders(states), v) == WithBalance(Listed(states), v)
  {
    ListedSort(states);
    SortStable(Listed(states), v);
  }

  /** Every holder has at least one raw unit, so the total is at least the
      holder count: it is positive exactly when the list is not empty. */
  lemma {:induction false} TotalAtLeastCount(holders: seq<Holder>)
    requires forall h :: h in holders ==> IsListed(h)
    ensures Total(holders) >= |holders|
    ensures Total(holders) > 0 <==> holders != []
  {
    if holders != [] {
      var n := |holders| - 1;
      assert holders[n] in holders;
      forall h | h in holders[..n] ensures IsListed(h) {
        assert h in holders;
      }
      TotalAtLeastCount(holders[..n]);
    }
  }

  /** The written artifact is internally consistent: its total is at least
      its count and is positive exactly when it has records. (The count being
      the number of records holds by the definition of ArtifactOf; that the
      loop's counter n meets it is BuildRichList's invariant.) */
  lemma ArtifactConsistent(now: string, states: seq<Entry>)
    ensures ArtifactOf(now, states).holderCount == |ArtifactOf(now, states).holders|
    ensures ArtifactOf(now, states).totalBalance >= ArtifactOf(now, states).holderCount
    ensures ArtifactOf(now, states).totalBalance > 0 <==> ArtifactOf(now, states).holders != []
  {
    HoldersSound(states);
    TotalAtLeastCount(Holders(states));
  }
}
