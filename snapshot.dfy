/** The balance snapshot a node reports and the rich-list listing rule.

    A snapshot is the node's address-to-balance mapping, given here as the
    sequence of its entries in the mapping's iteration order: that order is
    what a stable sort falls back on when two balances are equal. Balances are
    raw integers in the smallest unit; the scaling by 10^8 is output only. */
module Snapshot {

  datatype Entry = Entry(address: string, balance: int)

  /** A holder record of the rich list: an address and its (raw) balance. */
  type Holder = Entry

  /** Length of a well-formed address; other keys of the snapshot are skipped. */
  const ADDRESS_LENGTH: nat := 35

  /** The listing rule: a 35-character address holding a strictly positive balance. */
  predicate IsListed(e: Entry) {
    |e.address| == ADDRESS_LENGTH && e.balance > 0
  }

  /** The keys of a mapping are pairwise different. */
  ghost predicate DistinctAddresses(s: seq<Entry>) {
    forall i, j :: 0 <= i < j < |s| ==> s[i].address != s[j].address
  }

  /** The elements of s satisfying p, in their order in s. */
  function Filter<T>(s: seq<T>, p: T -> bool): (r: seq<T>)
    ensures |r| <= |s|
    ensures forall x :: x in r ==> x in s && p(x)
  {
    if s == [] then []
    else Filter(s[..|s| - 1], p) + (if p(s[|s| - 1]) then [s[|s| - 1]] else [])
  }

  /** The entries of s that the rich list shows, in their order in s. */
  function Listed(s: seq<Entry>): seq<Entry> {
    Filter(s, IsListed)
  }

  /** Sum of the raw balances of s. */
  function Total(s: seq<Entry>): int {
    if s == [] then 0 else Total(s[..|s| - 1]) + s[|s| - 1].balance
  }

  lemma {:induction false} FilterConcat<T>(a: seq<T>, b: seq<T>, p: T -> bool)
    ensures Filter(a + b, p) == Filter(a, p) + Filter(b, p)
  {
    if b == [] {
      assert a + b == a;
    } else {
      var n := |b| - 1;
      assert (a + b)[..|a + b| - 1] == a + b[..n];
      assert (a + b)[|a + b| - 1] == b[n];
      FilterConcat(a, b[..n], p);
    }
  }

  /** Filtering keeps every element satisfying p as often as it occurs, and no other. */
  lemma {:induction false} FilterCount<T>(s: seq<T>, p: T -> bool, x: T)
    ensures multiset(Filter(s, p))[x] == if p(x) then multiset(s)[x] else 0
  {
    if s != [] {
      var n := |s| - 1;
      FilterCount(s[..n], p, x);
      assert s == s[..n] + [s[n]];
      assert multiset(s) == multiset(s[..n]) + multiset{s[n]};
    }
  }

  /** A filter that keeps nothing of s yields the empty sequence. */
  lemma {:induction false} FilterNone<T>(s: seq<T>, p: T -> bool)
    requires forall x :: x in s ==> !p(x)
    ensures Filter(s, p) == []
  {
    if s != [] {
      FilterNone(s[..|s| - 1], p);
    }
  }

  /** In a snapshot with distinct addresses every entry occurs exactly once. */
  lemma {:induction false} DistinctOccursOnce(s: seq<Entry>, e: Entry)
    requires DistinctAddresses(s)
    requires e in s
    ensures multiset(s)[e] == 1
  {
    var n := |s| - 1;
    var init := s[..n];
    assert s == init + [s[n]];
    assert multiset(s) == multiset(init) + multiset{s[n]};
    assert DistinctAddresses(init);
    if e == s[n] {
      assert forall i :: 0 <= i < n ==> init[i].address != e.address;
      assert e !in init;
    } else {
      DistinctOccursOnce(init, e);
    }
  }
}
