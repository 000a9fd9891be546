/** The ordering step of the rich list: a stable sort of the snapshot's
    entries by descending balance, which is what sorting with the key
    "minus the balance" does. */
module StableSort {
  import opened Snapshot

  /** Balances never increase along s. */
  predicate Sorted(s: seq<Entry>) {
    forall i, j :: 0 <= i < j < |s| ==> s[i].balance >= s[j].balance
  }

  /** Puts e just after the leading entries of r whose balance is at least
      e's: where a stable sort places an entry that comes after all of r. */
  function Insert(r: seq<Entry>, e: Entry): (t: seq<Entry>)
    ensures |t| == |r| + 1
  {
    if r == [] then [e]
    else if r[0].balance >= e.balance then [r[0]] + Insert(r[1..], e)
    else [e] + r
  }

  /** The stable descending sort, one entry at a time in input order. */
  function SortDesc(s: seq<Entry>): (t: seq<Entry>)
    ensures |t| == |s|
  {
    if s == [] then [] else Insert(SortDesc(s[..|s| - 1]), s[|s| - 1])
  }

  /** The entries of s with balance exactly v, in their order in s. */
  function WithBalance(s: seq<Entry>, v: int): seq<Entry> {
    Filter(s, (x: Entry) => x.balance == v)
  }

  /** Splitting r at the first entry lighter than e is what Insert does. */
  lemma {:induction false} InsertAt(r: seq<Entry>, e: Entry, j: nat)
    requires j <= |r|
    requires forall k :: 0 <= k < j ==> r[k].balance >= e.balance
    requires j < |r| ==> r[j].balance < e.balance
    ensures Insert(r, e) == r[..j] + [e] + r[j..]
  {
    if j > 0 {
      InsertAt(r[1..], e, j - 1);
      assert r[..j] == [r[0]] + r[1..][..j - 1];
      assert r[j..] == r[1..][j - 1..];
    } else {
      assert r[j..] == r;
    }
  }

  lemma {:induction false} InsertPermutes(r: seq<Entry>, e: Entry)
    ensures multiset(Insert(r, e)) == multiset(r) + multiset{e}
  {
    if r != [] && r[0].balance >= e.balance {
      InsertPermutes(r[1..], e);
      assert r == [r[0]] + r[1..];
    }
  }

  lemma {:induction false} InsertSorted(r: seq<Entry>, e: Entry)
    requires Sorted(r)
    ensures Sorted(Insert(r, e))
  {
    if r != [] && r[0].balance >= e.balance {
      var rest := r[1..];
      InsertSorted(rest, e);
      InsertPermutes(rest, e);
      var t := Insert(rest, e);
      forall k | 0 <= k < |t| ensures r[0].balance >= t[k].balance {
        assert t[k] in multiset(t);
        assert t[k] == e || t[k] in multiset(rest);
      }
      assert Insert(r, e) == [r[0]] + t;
    }
  }

  /** SortDesc orders by non-increasing balance. */
  lemma {:induction false} SortSorted(s: seq<Entry>)
    ensures Sorted(SortDesc(s))
  {
    if s != [] {
      SortSorted(s[..|s| - 1]);
      InsertSorted(SortDesc(s[..|s| - 1]), s[|s| - 1]);
    }
  }

  /** SortDesc rearranges its input and nothing more. */
  lemma {:induction false} SortPermutes(s: seq<Entry>)
    ensures multiset(SortDesc(s)) == multiset(s)
  {
    if s != [] {
      var n := |s| - 1;
      SortPermutes(s[..n]);
      InsertPermutes(SortDesc(s[..n]), s[n]);
      assert s == s[..n] + [s[n]];
    }
  }

  /** Every entry of the sorted r that follows a lighter first entry is lighter too. */
  lemma LighterThanHead(r: seq<Entry>, e: Entry, x: Entry)
    requires Sorted(r) && r != [] && r[0].balance < e.balance
    requires x in r
    ensures x.balance < e.balance
  {
  }

  /** The entries of balance v in an entry followed by more entries. */
  lemma WithBalanceCons(x: Entry, t: seq<Entry>, v: int)
    ensures WithBalance([x] + t, v) == (if x.balance == v then [x] else []) + WithBalance(t, v)
  {
    FilterConcat([x], t, (y: Entry) => y.balance == v);
    assert [x] == [] + [x];
  }

  /** Inserting e into a sorted r appends e to the entries of its own balance. */
  lemma {:induction false} InsertStable(r: seq<Entry>, e: Entry, v: int)
    requires Sorted(r)
    ensures WithBalance(Insert(r, e), v) == WithBalance(r, v) + (if e.balance == v then [e] else [])
  {
    if r == [] {
      WithBalanceCons(e, [], v);
    } else if r[0].balance >= e.balance {
      var rest := r[1..];
      InsertStable(rest, e, v);
      WithBalanceCons(r[0], Insert(rest, e), v);
      assert r == [r[0]] + rest;
      WithBalanceCons(r[0], rest, v);
    } else {
      assert Insert(r, e) == [e] + r;
      WithBalanceCons(e, r, v);
      if e.balance == v {
        forall x | x in r ensures x.balance != v {
          LighterThanHead(r, e, x);
        }
        FilterNone(r, (x: Entry) => x.balance == v);
      }
    }
  }

  /** Stability: among entries of equal balance SortDesc keeps the input order. */
  lemma {:induction false} SortStable(s: seq<Entry>, v: int)
    ensures WithBalance(SortDesc(s), v) == WithBalance(s, v)
  {
    if s != [] {
      var n := |s| - 1;
      SortStable(s[..n], v);
      SortSorted(s[..n]);
      InsertStable(SortDesc(s[..n]), s[n], v);
      assert WithBalance(s, v) == WithBalance(s[..n], v) + (if s[n].balance == v then [s[n]] else []);
    }
  }

  /** Listing an entry followed by more entries. */
  lemma ListedCons(x: Entry, t: seq<Entry>)
    ensures Listed([x] + t) == (if IsListed(x) then [x] else []) + Listed(t)
  {
    FilterConcat([x], t, IsListed);
    assert [x] == [] + [x];
  }

  /** Listing commutes with inserting into a sorted sequence. */
  lemma {:induction false} ListedInsert(r: seq<Entry>, e: Entry)
    requires Sorted(r)
    ensures Listed(Insert(r, e)) == if IsListed(e) then Insert(Listed(r), e) else Listed(r)
  {
    if r == [] {
      ListedCons(e, []);
      assert [e] + [] == [e];
    } else if r[0].balance >= e.balance {
      var rest := r[1..];
      ListedInsert(rest, e);
      ListedCons(r[0], Insert(rest, e));
      assert r == [r[0]] + rest;
      ListedCons(r[0], rest);
      if IsListed(e) && IsListed(r[0]) {
        var l := [r[0]] + Listed(rest);
        assert l[0] == r[0] && l[1..] == Listed(rest);
        assert Insert(l, e) == [r[0]] + Insert(Listed(rest), e);
      } else if !IsListed(r[0]) {
        assert Listed(r) == Listed(rest);
        assert Listed(Insert(r, e)) == Listed(Insert(rest, e));
      }
    } else {
      assert Insert(r, e) == [e] + r;
      ListedCons(e, r);
      var l := Listed(r);
      if IsListed(e) && l != [] {
        LighterThanHead(r, e, l[0]);
        assert Insert(l, e) == [e] + l;
      }
    }
  }

  /** Listing the sorted snapshot is sorting the listed entries. */
  lemma {:induction false} ListedSort(s: seq<Entry>)
    ensures Listed(SortDesc(s)) == SortDesc(Listed(s))
  {
    if s != [] {
      var n := |s| - 1;
      var x := s[n];
      ListedSort(s[..n]);
      SortSorted(s[..n]);
      ListedInsert(SortDesc(s[..n]), x);
      var l := Listed(s[..n]);
      assert Listed(s) == l + (if IsListed(x) then [x] else []);
      if IsListed(x) {
        var lx := l + [x];
        assert lx[..|lx| - 1] == l;
        assert SortDesc(lx) == Insert(SortDesc(l), x);
      } else {
        assert Listed(s) == l;
      }
    }
  }

  /** The sort that orders the snapshot before it is scanned. */
  method SortByBalance(s: seq<Entry>) returns (sorted: seq<Entry>)
    ensures sorted == SortDesc(s)
  {
    sorted := [];
    for i := 0 to |s|
      invariant sorted == SortDesc(s[..i])
    {
      var e := s[i];
      var j := 0;
      while j < |sorted| && sorted[j].balance >= e.balance
        invariant j <= |sorted|
        invariant forall k :: 0 <= k < j ==> sorted[k].balance >= e.balance
      {
        j := j + 1;
      }
      InsertAt(sorted, e, j);
      ghost var done := s[..i + 1];
      assert done[..i] == s[..i] && done[i] == e;
      assert SortDesc(done) == Insert(SortDesc(s[..i]), e);
      sorted := sorted[..j] + [e] + sorted[j..];
    }
    assert s[..|s|] == s;
  }
}
