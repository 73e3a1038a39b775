/** Result items and their ranking: the comparator of the top-K sort, the in-place
    sort itself, and facts about sequences of result items.
 */
module Ranking {

  /** A search result: document id, relevance and rating. */
  datatype Document = Document(id: int, relevance: real, rating: int)

  /** The sort comparator: `lhs` goes before `rhs` when its relevance is higher, or,
      at equal relevance, when its rating is higher. Relevance equality is exact
      here; the implementation treats relevances closer than 1e-6 as equal. */
  function Precedes(lhs: Document, rhs: Document): (b: bool)
    ensures lhs.relevance > rhs.relevance ==> b
    ensures lhs.relevance < rhs.relevance ==> !b
    ensures lhs.relevance == rhs.relevance ==> (b <==> lhs.rating > rhs.rating)
  {
    if lhs.relevance == rhs.relevance then lhs.rating > rhs.rating
    else lhs.relevance > rhs.relevance
  }

  /** The comparator is a strict weak ordering: irreflexive, and "not before" is
      transitive. */
  lemma PrecedesIsStrictWeakOrder(x: Document, y: Document, z: Document)
    ensures !Precedes(x, x)
    ensures Precedes(x, y) ==> !Precedes(y, x)
    ensures !Precedes(y, x) && !Precedes(z, y) ==> !Precedes(z, x)
  {
  }

  /** No item of `s` precedes an earlier one. */
  predicate SortedByRank(s: seq<Document>) {
    forall i, j :: 0 <= i < j < |s| ==> !Precedes(s[j], s[i])
  }

  /** The first `n` elements of `a` are sorted by rank. */
  ghost predicate SortedPrefix(a: array<Document>, n: int)
    requires 0 <= n <= a.Length
    reads a
  {
    forall k, l :: 0 <= k < l < n ==> !Precedes(a[l], a[k])
  }

  /** One step of the insertion: `a[j]` changes places with its left neighbour. */
  method SwapDown(a: array<Document>, j: int)
    requires 0 < j < a.Length
    modifies a
    ensures a[..] == old(a[..])[j - 1 := old(a[j])][j := old(a[j - 1])]
    ensures multiset(a[..]) == old(multiset(a[..]))
  {
    a[j - 1], a[j] := a[j], a[j - 1];
  }

  /** Moves `a[i]` down into the sorted prefix `a[..i]`. */
  method InsertIntoPrefix(a: array<Document>, i: int)
    requires 0 <= i < a.Length
    requires SortedPrefix(a, i)
    modifies a
    ensures SortedPrefix(a, i + 1)
    ensures forall m :: i < m < a.Length ==> a[m] == old(a[m])
    ensures multiset(a[..]) == old(multiset(a[..]))
  {
    var j := i;
    while j > 0 && Precedes(a[j], a[j - 1])
      invariant 0 <= j <= i
      invariant forall k, l :: 0 <= k < l <= i && k != j && l != j ==> !Precedes(a[l], a[k])
      invariant forall l :: j < l <= i ==> !Precedes(a[l], a[j])
      invariant forall m :: i < m < a.Length ==> a[m] == old(a[m])
      invariant multiset(a[..]) == old(multiset(a[..]))
    {
      SwapDown(a, j);
      j := j - 1;
    }
    forall k | 0 <= k < j ensures !Precedes(a[j], a[k]) {
      PrecedesIsStrictWeakOrder(a[k], a[j - 1], a[j]);
    }
  }

  /** Insertion sort by `Precedes`, in place (the model of the `std::sort` call). */
  method SortByRank(a: array<Document>)
    modifies a
    ensures SortedByRank(a[..])
    ensures multiset(a[..]) == old(multiset(a[..]))
  {
    for i := 0 to a.Length
      invariant SortedPrefix(a, i)
      invariant multiset(a[..]) == old(multiset(a[..]))
    {
      InsertIntoPrefix(a, i);
    }
  }

  /** The ids of the items of `s`. */
  function DocIds(s: seq<Document>): set<int> {
    set i | 0 <= i < |s| :: s[i].id
  }

  lemma DocIdsSnoc(s: seq<Document>, x: Document)
    ensures DocIds(s + [x]) == DocIds(s) + {x.id}
  {
    var t := s + [x];
    forall i | 0 <= i < |t| ensures t[i].id in DocIds(s) + {x.id} {
      if i < |s| {
        assert t[i] == s[i];
      }
    }
    forall i | 0 <= i < |s| ensures s[i].id in DocIds(t) {
      assert t[i] == s[i];
    }
    assert t[|s|] == x;
  }

  /** No two items of `s` share an id. */
  predicate DistinctIds(s: seq<Document>) {
    forall i, j :: 0 <= i < j < |s| ==> s[i].id != s[j].id
  }

  /** The ids of `s` are strictly ascending, as when a `std::map<int, ...>` is listed. */
  predicate AscendingIds(s: seq<Document>) {
    forall i, j :: 0 <= i < j < |s| ==> s[i].id < s[j].id
  }

  /** Items with distinct ids have as many ids as items. */
  lemma {:induction false} DistinctIdsCount(s: seq<Document>)
    requires DistinctIds(s)
    ensures |DocIds(s)| == |s|
  {
    if s != [] {
      var init := s[..|s| - 1];
      DistinctIdsCount(init);
      assert DocIds(s) == DocIds(init) + {s[|s| - 1].id};
      assert s[|s| - 1].id !in DocIds(init);
    }
  }

  /** An item occurs at most once in a sequence with distinct ids. */
  lemma {:induction false} DistinctIdsOnce(s: seq<Document>, x: Document)
    requires DistinctIds(s)
    ensures multiset(s)[x] <= 1
  {
    if s != [] {
      var init := s[..|s| - 1];
      assert s == init + [s[|s| - 1]];
      DistinctIdsOnce(init, x);
      if x == s[|s| - 1] {
        assert x !in init;
      }
    }
  }

  /** An item at two positions occurs at least twice. */
  lemma TwiceCounted(s: seq<Document>, i: int, j: int)
    requires 0 <= i < j < |s| && s[i] == s[j]
    ensures multiset(s)[s[i]] >= 2
  {
    assert s == s[..j] + s[j..];
    assert s[i] in s[..j];
    assert s[j] in s[j..];
  }

  /** A rearrangement of items with distinct ids again has distinct ids. */
  lemma PermutationKeepsDistinctIds(s: seq<Document>, t: seq<Document>)
    requires multiset(s) == multiset(t)
    requires DistinctIds(t)
    ensures DistinctIds(s)
  {
    forall i, j | 0 <= i < j < |s| ensures s[i].id != s[j].id {
      if s[i].id == s[j].id {
        assert s[i] in multiset(t) && s[j] in multiset(t);
        var k :| 0 <= k < |t| && t[k] == s[i];
        var l :| 0 <= l < |t| && t[l] == s[j];
        assert k == l;
        TwiceCounted(s, i, j);
        DistinctIdsOnce(t, s[i]);
        assert false;
      }
    }
  }

  /** The first `n` items of a ranking of `items` hold distinct ids (when `items`
      does), are in rank order, are drawn from `items`, and no item of `items` left
      out of them ranks before any of them. */
  lemma RankedPrefix(items: seq<Document>, sorted: seq<Document>, n: nat)
    requires DistinctIds(items)
    requires multiset(sorted) == multiset(items)
    requires SortedByRank(sorted)
    requires n <= |sorted|
    ensures |sorted| == |items|
    ensures DistinctIds(sorted[..n]) && SortedByRank(sorted[..n])
    ensures forall i :: 0 <= i < n ==> sorted[i] in items
    ensures forall x, i :: x in items && x.id !in DocIds(sorted[..n]) && 0 <= i < n ==> !Precedes(x, sorted[i])
  {
    assert |multiset(sorted)| == |multiset(items)|;
    PermutationKeepsDistinctIds(sorted, items);
    forall i | 0 <= i < n ensures sorted[i] in items {
      assert sorted[i] in multiset(items);
    }
    LeftOutRanksLower(items, sorted, n);
  }

  lemma LeftOutRanksLower(items: seq<Document>, sorted: seq<Document>, n: nat)
    requires multiset(sorted) == multiset(items)
    requires SortedByRank(sorted)
    requires n <= |sorted|
    ensures forall x, i :: x in items && x.id !in DocIds(sorted[..n]) && 0 <= i < n ==> !Precedes(x, sorted[i])
  {
    forall x, i | x in items && x.id !in DocIds(sorted[..n]) && 0 <= i < n
      ensures !Precedes(x, sorted[i])
    {
      assert x in multiset(sorted);
      var j :| 0 <= j < |sorted| && sorted[j] == x;
      assert n <= j;
    }
  }
}
