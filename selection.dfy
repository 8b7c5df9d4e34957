/**
 * Choosing the sprints to report on (index.ts, `main`): the board's sprint
 * list is sorted in place by descending id, the first `s` are sliced off and
 * the slice is reversed back into chronological order.
 */
module Selection {
  import opened Interfaces

  /** Most recent first: ids never increase. */
  ghost predicate SortedByIdDesc(s: seq<SprintElement>)
  {
    forall i, j :: 0 <= i < j < |s| ==> s[i].id >= s[j].id
  }

  ghost predicate StrictlyAscendingIds(s: seq<SprintElement>)
  {
    forall i, j :: 0 <= i < j < |s| ==> s[i].id < s[j].id
  }

  ghost predicate DistinctIds(s: seq<SprintElement>)
  {
    forall i, j :: 0 <= i < |s| && 0 <= j < |s| && i != j ==> s[i].id != s[j].id
  }

  /** The end index `Array.prototype.slice(0, s)` uses on a list of `n` items. */
  function SliceEnd(n: nat, s: int): (k: nat)
    ensures k <= n
    ensures s >= 0 ==> k == if s < n then s else n
    ensures s < 0 ==> k == if n + s < 0 then 0 else n + s
  {
    if s < 0 then (if n + s < 0 then 0 else n + s) else if s < n then s else n
  }

  function Reverse(s: seq<SprintElement>): (r: seq<SprintElement>)
    ensures |r| == |s|
    ensures forall i :: 0 <= i < |s| ==> r[i] == s[|s| - 1 - i]
  {
    seq(|s|, i requires 0 <= i < |s| => s[|s| - 1 - i])
  }

  /** Ids never increase over the positions `lo` to `hi - 1`. */
  ghost predicate DescOn(s: seq<SprintElement>, lo: int, hi: int)
  {
    0 <= lo && hi <= |s| && forall p, q :: lo <= p < q < hi ==> s[p].id >= s[q].id
  }

  /**
   * Insertion of `s[i]` in progress, the moving sprint now at `j`: both sides
   * of `j` are sorted and everything left of `j` is at least everything from
   * `j + 1` to `i`.
   */
  ghost predicate Sinking(s: seq<SprintElement>, j: int, i: int)
  {
    && 0 <= j <= i < |s|
    && DescOn(s, 0, j) && DescOn(s, j, i + 1)
    && forall p, q :: 0 <= p < j < q <= i ==> s[p].id >= s[q].id
  }

  lemma SinkStep(s: seq<SprintElement>, j: int, i: int)
    requires Sinking(s, j, i) && 0 < j && s[j - 1].id < s[j].id
    ensures Sinking(s[j - 1 := s[j]][j := s[j - 1]], j - 1, i)
  {
  }

  lemma SinkDone(s: seq<SprintElement>, j: int, i: int)
    requires Sinking(s, j, i) && (j == 0 || s[j - 1].id >= s[j].id)
    ensures DescOn(s, 0, i + 1)
  {
  }

  /**
   * `sprints.sort((a, b) => b.id - a.id)`: sorts the array in place by
   * descending id, keeping its elements.
   */
  method SortByIdDesc(a: array<SprintElement>)
    modifies a
    ensures SortedByIdDesc(a[..])
    ensures multiset(a[..]) == multiset(old(a[..]))
  {
    var i := 0;
    while i < a.Length
      invariant i <= a.Length && DescOn(a[..], 0, i)
      invariant multiset(a[..]) == multiset(old(a[..]))
    {
      SinkNewest(a, i);
      i := i + 1;
    }
  }

  /** One insertion step: moves `a[i]` left past every smaller id. */
  method SinkNewest(a: array<SprintElement>, i: nat)
    requires i < a.Length && DescOn(a[..], 0, i)
    modifies a
    ensures DescOn(a[..], 0, i + 1)
    ensures multiset(a[..]) == multiset(old(a[..]))
  {
    var j := i;
    while j > 0 && a[j - 1].id < a[j].id
      invariant Sinking(a[..], j, i)
      invariant multiset(a[..]) == multiset(old(a[..]))
    {
      SinkStep(a[..], j, i);
      Swap(a, j - 1, j);
      j := j - 1;
    }
    SinkDone(a[..], j, i);
  }

  /** Exchanges `a[i]` and `a[j]`. */
  method Swap(a: array<SprintElement>, i: nat, j: nat)
    requires i < a.Length && j < a.Length
    modifies a
    ensures a[..] == old(a[..])[i := old(a[j])][j := old(a[i])]
    ensures multiset(a[..]) == multiset(old(a[..]))
  {
    a[i], a[j] := a[j], a[i];
  }

  /** The first `i` swaps of a reversal done: both ends reversed, the middle untouched. */
  ghost predicate HalfReversed(cur: seq<SprintElement>, before: seq<SprintElement>, i: int)
  {
    var n := |cur|;
    && |before| == n && 0 <= i <= n / 2
    && (forall p :: 0 <= p < i ==> cur[p] == before[n - 1 - p] && cur[n - 1 - p] == before[p])
    && (forall p :: i <= p < n - i ==> cur[p] == before[p])
  }

  lemma ReverseStep(cur: seq<SprintElement>, before: seq<SprintElement>, i: int)
    requires HalfReversed(cur, before, i) && i < |cur| / 2
    ensures HalfReversed(cur[i := cur[|cur| - 1 - i]][|cur| - 1 - i := cur[i]], before, i + 1)
  {
  }

  lemma ReverseDone(cur: seq<SprintElement>, before: seq<SprintElement>, i: int)
    requires HalfReversed(cur, before, i) && i >= |cur| / 2
    ensures cur == Reverse(before)
  {
  }

  /** `Array.prototype.reverse()`: reverses the array in place. */
  method ReverseInPlace(b: array<SprintElement>)
    modifies b
    ensures b[..] == Reverse(old(b[..]))
  {
    ghost var before := b[..];
    var i := 0;
    while i < b.Length / 2
      invariant HalfReversed(b[..], before, i)
    {
      ReverseStep(b[..], before, i);
      Swap(b, i, b.Length - 1 - i);
      i := i + 1;
    }
    ReverseDone(b[..], before, i);
  }

  /** `.slice(0, s)` then `.reverse()` on the copy. */
  method SliceReversed(a: array<SprintElement>, s: int) returns (chosen: array<SprintElement>)
    ensures fresh(chosen)
    ensures chosen[..] == Reverse(a[..][..SliceEnd(a.Length, s)])
  {
    var k := SliceEnd(a.Length, s);
    chosen := new SprintElement[k](p requires 0 <= p < k reads a => a[p]);
    assert chosen[..] == a[..][..k];
    ReverseInPlace(chosen);
  }

  /**
   * The chain `sort`, `slice(0, s)`, `reverse()`: `sprints` ends sorted by
   * descending id and the result is its first `s` elements, oldest first.
   */
  method SelectSprints(sprints: array<SprintElement>, s: int) returns (chosen: array<SprintElement>)
    modifies sprints
    ensures SortedByIdDesc(sprints[..])
    ensures multiset(sprints[..]) == multiset(old(sprints[..]))
    ensures fresh(chosen)
    ensures chosen[..] == Reverse(sprints[..][..SliceEnd(sprints.Length, s)])
  {
    SortByIdDesc(sprints);
    chosen := SliceReversed(sprints, s);
  }

  // ---------------------------------------------------------------------------
  // What the selection promises, stated over the sorted list it leaves behind.

  /** Distinct ids said through the multiset: no sprint twice, no two sprints sharing an id. */
  ghost predicate Unrepeated(s: seq<SprintElement>)
  {
    && (forall x :: multiset(s)[x] <= 1)
    && (forall x, y :: x in multiset(s) && y in multiset(s) && x.id == y.id ==> x == y)
  }

  lemma {:induction false} DistinctIdsAreUnrepeated(s: seq<SprintElement>)
    requires DistinctIds(s)
    ensures Unrepeated(s)
  {
    if |s| > 0 {
      var last := |s| - 1;
      var init := s[..last];
      DistinctIdsAreUnrepeated(init);
      assert s == init + [s[last]];
      assert s[last] !in multiset(init);
      forall x, y | x in multiset(s) && y in multiset(s) && x.id == y.id ensures x == y {
        var i :| 0 <= i < |s| && s[i] == x;
        var j :| 0 <= j < |s| && s[j] == y;
      }
    }
  }

  lemma RepeatCounted(s: seq<SprintElement>, i: nat, j: nat)
    requires i < j < |s| && s[i] == s[j]
    ensures multiset(s)[s[i]] >= 2
  {
    assert s == s[..j] + s[j..];
    assert s[i] in multiset(s[..j]);
    assert s[j] in multiset(s[j..]);
  }

  lemma UnrepeatedHasDistinctIds(s: seq<SprintElement>)
    requires Unrepeated(s)
    ensures DistinctIds(s)
  {
    forall i, j | 0 <= i < |s| && 0 <= j < |s| && i != j ensures s[i].id != s[j].id {
      if s[i].id == s[j].id {
        assert s[i] in multiset(s) && s[j] in multiset(s);
        if i < j { RepeatCounted(s, i, j); } else { RepeatCounted(s, j, i); }
      }
    }
  }

  /** Reordering keeps ids distinct. */
  lemma PermutationKeepsDistinct(a: seq<SprintElement>, b: seq<SprintElement>)
    requires multiset(a) == multiset(b) && DistinctIds(a)
    ensures DistinctIds(b)
  {
    DistinctIdsAreUnrepeated(a);
    UnrepeatedHasDistinctIds(b);
  }

  /** Two sorted lists of the same sprints with distinct ids start with the same sprint. */
  lemma SameNewest(a: seq<SprintElement>, b: seq<SprintElement>)
    requires |a| > 0 && |b| > 0
    requires SortedByIdDesc(a) && SortedByIdDesc(b)
    requires DistinctIds(a) && multiset(a) == multiset(b)
    ensures a[0] == b[0]
  {
    assert a[0] in multiset(b) && b[0] in multiset(a);
    var i :| 0 <= i < |a| && a[i] == b[0];
    var j :| 0 <= j < |b| && b[j] == a[0];
    assert a[0].id >= a[i].id && b[0].id >= b[j].id;
    assert a[i].id == a[0].id;
  }

  lemma DropNewest(a: seq<SprintElement>)
    requires |a| > 0 && SortedByIdDesc(a) && DistinctIds(a)
    ensures SortedByIdDesc(a[1..]) && DistinctIds(a[1..])
    ensures multiset(a[1..]) == multiset(a) - multiset{a[0]}
  {
    assert a == [a[0]] + a[1..];
  }

  /**
   * With distinct ids there is only one list sorted by descending id holding
   * given sprints, so the selection does not depend on how the sort works.
   */
  lemma {:induction false} SortedIsUnique(a: seq<SprintElement>, b: seq<SprintElement>)
    requires SortedByIdDesc(a) && SortedByIdDesc(b)
    requires DistinctIds(a) && multiset(a) == multiset(b)
    ensures a == b
  {
    assert |a| == |multiset(a)| == |multiset(b)| == |b|;
    if |a| > 0 {
      PermutationKeepsDistinct(a, b);
      SameNewest(a, b);
      DropNewest(a);
      DropNewest(b);
      SortedIsUnique(a[1..], b[1..]);
      assert a == [a[0]] + a[1..] && b == [b[0]] + b[1..];
    }
  }

  lemma ReverseMembers(s: seq<SprintElement>)
    ensures forall x :: x in Reverse(s) <==> x in s
  {
    forall x ensures x in Reverse(s) <==> x in s {
      if x in s {
        var p :| 0 <= p < |s| && s[p] == x;
        assert Reverse(s)[|s| - 1 - p] == x;
      }
    }
  }

  lemma ChosenAscending(sorted: seq<SprintElement>, k: nat)
    requires k <= |sorted| && SortedByIdDesc(sorted) && DistinctIds(sorted)
    ensures StrictlyAscendingIds(Reverse(sorted[..k]))
  {
    var chosen := Reverse(sorted[..k]);
    forall i, j | 0 <= i < j < |chosen| ensures chosen[i].id < chosen[j].id {
      assert chosen[i] == sorted[k - 1 - i] && chosen[j] == sorted[k - 1 - j];
    }
  }

  lemma LeftOutAreOlder(sorted: seq<SprintElement>, k: nat, x: SprintElement, j: nat)
    requires k <= |sorted| && SortedByIdDesc(sorted) && DistinctIds(sorted)
    requires x in sorted && x !in sorted[..k] && j < k
    ensures x.id < Reverse(sorted[..k])[j].id
  {
    var m :| 0 <= m < |sorted| && sorted[m] == x;
    assert m >= k;
    assert Reverse(sorted[..k])[j] == sorted[k - 1 - j];
  }

  /**
   * Taking `s` sprints with distinct ids from the sorted list gives
   * `min(s, n)` sprints of the list for `s >= 0`, and leaves out the `-s`
   * oldest (all of them when `-s >= n`) for negative `s`. The sprints taken
   * are in strictly ascending id order, and every sprint left out is older
   * (has a smaller id) than every sprint taken.
   */
  lemma SelectionIsNewestInOrder(input: seq<SprintElement>, sorted: seq<SprintElement>, s: int)
    requires SortedByIdDesc(sorted) && multiset(sorted) == multiset(input)
    requires DistinctIds(input)
    ensures var chosen := Reverse(sorted[..SliceEnd(|sorted|, s)]);
      && |chosen| == SliceEnd(|input|, s)
      && (s >= 0 ==> |chosen| == if s < |input| then s else |input|)
      && (s < 0 ==> |input| - |chosen| == if -s < |input| then -s else |input|)
      && StrictlyAscendingIds(chosen)
      && (forall j :: 0 <= j < |chosen| ==> chosen[j] in input)
      && (forall i, j :: 0 <= i < |input| && 0 <= j < |chosen| && input[i] !in chosen ==>
            input[i].id < chosen[j].id)
  {
    assert |input| == |multiset(input)| == |sorted|;
    PermutationKeepsDistinct(input, sorted);
    var k := SliceEnd(|sorted|, s);
    var chosen := Reverse(sorted[..k]);
    ChosenAscending(sorted, k);
    ReverseMembers(sorted[..k]);
    forall j | 0 <= j < |chosen| ensures chosen[j] in input {
      assert chosen[j] in sorted[..k];
      assert chosen[j] in multiset(sorted);
    }
    forall i, j | 0 <= i < |input| && 0 <= j < |chosen| && input[i] !in chosen
      ensures input[i].id < chosen[j].id
    {
      assert input[i] in multiset(sorted);
      LeftOutAreOlder(sorted, k, input[i], j);
    }
  }

  function ExampleSprints(): seq<SprintElement>
  {
    [SprintElement(10, "S10"), SprintElement(7, "S7"), SprintElement(9, "S9"),
     SprintElement(5, "S5"), SprintElement(3, "S3")]
  }

  lemma ExampleSprintsDistinct()
    ensures DistinctIds(ExampleSprints())
  {
  }

  lemma ExampleSortedOrder()
    ensures SortedByIdDesc(ExampleSorted())
    ensures multiset(ExampleSorted()) == multiset(ExampleSprints())
  {
  }

  function ExampleSorted(): seq<SprintElement>
  {
    [SprintElement(10, "S10"), SprintElement(9, "S9"), SprintElement(7, "S7"),
     SprintElement(5, "S5"), SprintElement(3, "S3")]
  }

  /** Ids 10, 7, 9, 5, 3 and `s = 3`: the sprints 7, 9, 10, in that order. */
  lemma ExampleSelection(sorted: seq<SprintElement>)
    requires SortedByIdDesc(sorted) && multiset(sorted) == multiset(ExampleSprints())
    ensures Reverse(sorted[..SliceEnd(|sorted|, 3)])
      == [SprintElement(7, "S7"), SprintElement(9, "S9"), SprintElement(10, "S10")]
  {
    ExampleSprintsDistinct();
    ExampleSortedOrder();
    PermutationKeepsDistinct(ExampleSprints(), sorted);
    SortedIsUnique(sorted, ExampleSorted());
    ExampleNewestThree();
  }

  lemma ExampleNewestThree()
    ensures Reverse(ExampleSorted()[..SliceEnd(5, 3)])
      == [SprintElement(7, "S7"), SprintElement(9, "S9"), SprintElement(10, "S10")]
  {
    assert ExampleSorted()[..3] == [SprintElement(10, "S10"), SprintElement(9, "S9"), SprintElement(7, "S7")];
  }
}
