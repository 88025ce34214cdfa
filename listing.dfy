/**
 * The sorted listing shown beside the video: a copy of the entries ordered by
 * ascending start time. The editor sorts with the host's library sort and the
 * comparator `a.start - b.start`; the model uses a stable insertion sort and
 * proves that, in a well-formed store, no other start-ordered permutation
 * exists, so the choice of algorithm does not matter there.
 */
module Listing {
  import opened Subtitles

  /** Ascending by start (the sign of `a.start - b.start` is never positive). */
  predicate SortedByStart(s: seq<Subtitle>) {
    forall i, j :: 0 <= i < j < |s| ==> s[i].start <= s[j].start
  }

  /** Strictly ascending by start. */
  predicate StrictlySortedByStart(s: seq<Subtitle>) {
    forall i, j :: 0 <= i < j < |s| ==> s[i].start < s[j].start
  }

  /** Inserts `x` before the first entry that does not start earlier. */
  function InsertByStart(x: Subtitle, s: seq<Subtitle>): (r: seq<Subtitle>)
    requires SortedByStart(s)
    ensures SortedByStart(r)
    ensures multiset(r) == multiset(s) + multiset{x}
    ensures |r| == |s| + 1 && (r[0] == x || (s != [] && r[0] == s[0]))
  {
    if s == [] then [x]
    else if x.start <= s[0].start then [x] + s
    else
      var tail := InsertByStart(x, s[1..]);
      assert s == [s[0]] + s[1..];
      assert s[0].start <= tail[0].start;
      [s[0]] + tail
  }

  /** The listing: a start-ordered permutation of the entries. */
  function SortByStart(s: seq<Subtitle>): (r: seq<Subtitle>)
    ensures SortedByStart(r)
    ensures multiset(r) == multiset(s)
  {
    if s == [] then []
    else
      assert s == [s[0]] + s[1..];
      InsertByStart(s[0], SortByStart(s[1..]))
  }

  /** Inserting an entry whose start is new keeps a listing strictly ordered. */
  lemma {:induction false} InsertKeepsStrict(x: Subtitle, s: seq<Subtitle>)
    requires StrictlySortedByStart(s)
    requires forall k :: 0 <= k < |s| ==> s[k].start != x.start
    ensures StrictlySortedByStart(InsertByStart(x, s))
  {
    if s != [] && x.start > s[0].start {
      InsertKeepsStrict(x, s[1..]);
      var tail := InsertByStart(x, s[1..]);
      assert s[0].start < tail[0].start;
    }
  }

  /** The listing of a well-formed store has no two entries with the same start. */
  lemma {:induction false} SortWellFormedIsStrict(s: seq<Subtitle>)
    requires WellFormed(s)
    ensures StrictlySortedByStart(SortByStart(s))
  {
    if s != [] {
      var tail := s[1..];
      assert WellFormed(tail) by {
        forall i, j | 0 <= i < |tail| && 0 <= j < |tail| && i != j
          ensures !Overlaps(tail[i], tail[j].start, tail[j].end)
        {
          assert tail[i] == s[i + 1] && tail[j] == s[j + 1];
        }
      }
      SortWellFormedIsStrict(tail);
      var sorted := SortByStart(tail);
      forall k | 0 <= k < |sorted| ensures sorted[k].start != s[0].start {
        assert sorted[k] in multiset(tail);
        var m :| 0 <= m < |tail| && tail[m] == sorted[k];
        WellFormedStartsDistinct(s, 0, m + 1);
      }
      InsertKeepsStrict(s[0], sorted);
    }
  }

  /** Dropping the first element removes exactly that element from the multiset. */
  lemma MultisetOfTail(s: seq<Subtitle>)
    requires s != []
    ensures multiset(s[1..]) == multiset(s) - multiset{s[0]}
  {
    assert s == [s[0]] + s[1..];
  }

  /** Start-ordered permutations, one strictly ordered, begin with the same entry. */
  lemma SortedPermutationsShareHead(a: seq<Subtitle>, b: seq<Subtitle>)
    requires a != [] && StrictlySortedByStart(a) && SortedByStart(b)
    requires multiset(a) == multiset(b)
    ensures b != [] && b[0] == a[0]
  {
    assert a[0] in multiset(b);
    var k :| 0 <= k < |b| && b[k] == a[0];
    assert b[0] in multiset(a);
    var m :| 0 <= m < |a| && a[m] == b[0];
    assert a[m].start <= a[0].start;
  }

  /** Two start-ordered permutations of one collection, one strictly ordered, are equal. */
  lemma {:induction false} SortedPermutationUnique(a: seq<Subtitle>, b: seq<Subtitle>)
    requires StrictlySortedByStart(a) && SortedByStart(b)
    requires multiset(a) == multiset(b)
    ensures a == b
  {
    if a == [] {
      assert |b| == |multiset(b)| == 0;
    } else {
      SortedPermutationsShareHead(a, b);
      MultisetOfTail(a);
      MultisetOfTail(b);
      SortedPermutationUnique(a[1..], b[1..]);
      assert a == [a[0]] + a[1..] && b == [b[0]] + b[1..];
    }
  }

  /**
   * In a well-formed store the listing is determined: every start-ordered
   * permutation of the entries is exactly `SortByStart`.
   */
  lemma ListingIsDetermined(s: seq<Subtitle>, r: seq<Subtitle>)
    requires WellFormed(s)
    requires SortedByStart(r) && multiset(r) == multiset(s)
    ensures r == SortByStart(s)
  {
    SortWellFormedIsStrict(s);
    SortedPermutationUnique(SortByStart(s), r);
  }

  /** Entries added in the order `[20, 30]`, `[0, 10]`, `[10, 20]` are listed by start. */
  lemma ListingExample(a: Subtitle, b: Subtitle, c: Subtitle)
    requires a.start == 20.0 && b.start == 0.0 && c.start == 10.0
    ensures SortByStart([a, b, c]) == [b, c, a]
  {
    assert SortByStart([b, c]) == [b, c] by {
      assert [b, c][1..] == [c];
      assert SortByStart([c]) == [c] by { assert [c][1..] == []; }
    }
    assert InsertByStart(a, [c]) == [c, a] by { assert [c][1..] == []; }
    assert InsertByStart(a, [b, c]) == [b, c, a] by { assert [b, c][1..] == [c]; }
    assert [a, b, c][1..] == [b, c];
  }
}
