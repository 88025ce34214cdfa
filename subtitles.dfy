/**
 * Subtitle entries and the pure logic the editor applies to its list of
 * entries: the half-open overlap test used before a create, the store
 * invariant, the inclusive lookup that decides which captions are on screen
 * at a playback instant, and the by-id replacement used by an edit.
 *
 * Times are seconds. Only comparisons are ever made on them, so they are
 * modelled as `real` without any floating-point arithmetic.
 */
module Subtitles {

  datatype Option<T> = None | Some(value: T)

  /** One subtitle record `{id, text, start, end}`. */
  datatype Subtitle = Subtitle(id: string, text: string, start: real, end: real)

  /** The two entries the editor starts with: `[0, 10]` and `[10, 20]`. */
  function Seed(): (s: seq<Subtitle>)
    ensures |s| == 2 && s[0].end == s[1].start
    ensures WellFormed(s) && UniqueIds(s)
  {
    [ Subtitle("1", "Hello everyone! Nice to meet you here in my video", 0.0, 10.0),
      Subtitle("2", "Have fun watching this video ;)", 10.0, 20.0) ]
  }

  // ---------------------------------------------------------------------------
  // Overlap (half-open ranges)
  // ---------------------------------------------------------------------------

  /** The per-entry test of `isOverlapping`: `[start, end)` meets `[sub.start, sub.end)`. */
  predicate Overlaps(sub: Subtitle, start: real, end: real) {
    start < sub.end && end > sub.start
  }

  /** `isOverlapping`: does some entry of `subs` meet `[start, end)`? (`Array.some`) */
  function IsOverlapping(subs: seq<Subtitle>, start: real, end: real): (b: bool)
    ensures b <==> exists i :: 0 <= i < |subs| && Overlaps(subs[i], start, end)
  {
    if subs == [] then false
    else Overlaps(subs[0], start, end) || IsOverlapping(subs[1..], start, end)
  }

  /** The overlap test does not depend on which of the two ranges is the entry. */
  lemma OverlapsSymmetric(a: Subtitle, b: Subtitle)
    ensures Overlaps(a, b.start, b.end) <==> Overlaps(b, a.start, a.end)
  {
  }

  /** Ranges that only touch (one ends where the other starts) do not overlap. */
  lemma TouchingRangesDoNotOverlap(sub: Subtitle, start: real, end: real)
    requires end == sub.start || start == sub.end
    ensures !Overlaps(sub, start, end)
  {
  }

  /** A range lying entirely before or after every entry overlaps nothing. */
  lemma {:induction false} DisjointRangeIsNotOverlapping(subs: seq<Subtitle>, start: real, end: real)
    requires forall i :: 0 <= i < |subs| ==> end <= subs[i].start || subs[i].end <= start
    ensures !IsOverlapping(subs, start, end)
  {
    if subs != [] {
      DisjointRangeIsNotOverlapping(subs[1..], start, end);
    }
  }

  /** On the seed data `[10, 20)` is taken, `[5, 15)` straddles both, `[20, 30)` only touches. */
  lemma SeedOverlapExamples()
    ensures IsOverlapping(Seed(), 10.0, 20.0)
    ensures IsOverlapping(Seed(), 5.0, 15.0)
    ensures !IsOverlapping(Seed(), 20.0, 30.0)
    ensures !IsOverlapping(Seed(), -5.0, 0.0)
  {
    var s := Seed();
    assert Overlaps(s[1], 10.0, 20.0);
    assert Overlaps(s[0], 5.0, 15.0);
  }

  // ---------------------------------------------------------------------------
  // The store invariant
  // ---------------------------------------------------------------------------

  /** Every entry has `start < end` and no two entries overlap under the half-open test. */
  predicate WellFormed(subs: seq<Subtitle>) {
    && (forall i :: 0 <= i < |subs| ==> subs[i].start < subs[i].end)
    && (forall i, j :: 0 <= i < |subs| && 0 <= j < |subs| && i != j ==>
          !Overlaps(subs[i], subs[j].start, subs[j].end))
  }

  /** No two entries share an id. */
  predicate UniqueIds(subs: seq<Subtitle>) {
    forall i, j :: 0 <= i < |subs| && 0 <= j < |subs| && i != j ==> subs[i].id != subs[j].id
  }

  /** The ids in use. */
  function Ids(subs: seq<Subtitle>): set<string> {
    set i | 0 <= i < |subs| :: subs[i].id
  }

  /** With unique ids there are exactly as many ids in use as entries. */
  lemma {:induction false} UniqueIdsCount(subs: seq<Subtitle>)
    requires UniqueIds(subs)
    ensures |Ids(subs)| == |subs|
  {
    if subs != [] {
      var tail := subs[1..];
      assert Ids(subs) == {subs[0].id} + Ids(tail) by {
        forall x | x in Ids(subs) ensures x in {subs[0].id} + Ids(tail) {
          var i :| 0 <= i < |subs| && subs[i].id == x;
          if i > 0 { assert tail[i - 1].id == x; }
        }
        forall x | x in Ids(tail) ensures x in Ids(subs) {
          var i :| 0 <= i < |tail| && tail[i].id == x;
          assert subs[i + 1].id == x;
        }
      }
      assert subs[0].id !in Ids(tail);
      assert UniqueIds(tail) by {
        forall i, j | 0 <= i < |tail| && 0 <= j < |tail| && i != j ensures tail[i].id != tail[j].id {
          assert tail[i] == subs[i + 1] && tail[j] == subs[j + 1];
        }
      }
      UniqueIdsCount(tail);
    }
  }

  /** The create branch keeps the invariant: a proper range that overlaps nothing may be appended. */
  lemma AppendPreservesWellFormed(subs: seq<Subtitle>, sub: Subtitle)
    requires WellFormed(subs)
    requires sub.start < sub.end && !IsOverlapping(subs, sub.start, sub.end)
    ensures WellFormed(subs + [sub])
  {
    var r := subs + [sub];
    forall i, j | 0 <= i < |r| && 0 <= j < |r| && i != j
      ensures !Overlaps(r[i], r[j].start, r[j].end)
    {
      if j == |subs| {
        assert !Overlaps(subs[i], sub.start, sub.end);
      } else if i == |subs| {
        assert !Overlaps(subs[j], sub.start, sub.end);
        OverlapsSymmetric(subs[j], sub);
      }
    }
  }

  /** The create branch keeps ids unique when the new id is fresh. */
  lemma AppendPreservesUniqueIds(subs: seq<Subtitle>, sub: Subtitle)
    requires UniqueIds(subs) && sub.id !in Ids(subs)
    ensures UniqueIds(subs + [sub])
  {
  }

  /** In a well-formed list no two entries start at the same instant. */
  lemma WellFormedStartsDistinct(subs: seq<Subtitle>, i: nat, j: nat)
    requires WellFormed(subs) && i < |subs| && j < |subs| && i != j
    ensures subs[i].start != subs[j].start
  {
    assert !Overlaps(subs[i], subs[j].start, subs[j].end);
  }

  // ---------------------------------------------------------------------------
  // Active lookup (inclusive bounds)
  // ---------------------------------------------------------------------------

  /** The test in `renderSubtitles`: `currentTime >= sub.start && currentTime <= sub.end`. */
  predicate IsActive(sub: Subtitle, t: real) {
    t >= sub.start && t <= sub.end
  }

  /** The captions drawn at playback time `t`, in list order. */
  function ActiveAt(subs: seq<Subtitle>, t: real): (r: seq<Subtitle>)
    ensures |r| <= |subs|
    ensures forall k :: 0 <= k < |r| ==> r[k] in subs && IsActive(r[k], t)
    ensures forall i :: 0 <= i < |subs| && IsActive(subs[i], t) ==> subs[i] in r
  {
    if subs == [] then []
    else (if IsActive(subs[0], t) then [subs[0]] else []) + ActiveAt(subs[1..], t)
  }

  /** The texts of a list of entries, in order (what `fillText` receives). */
  function Texts(subs: seq<Subtitle>): (r: seq<string>)
    ensures |r| == |subs| && forall i :: 0 <= i < |subs| ==> r[i] == subs[i].text
  {
    if subs == [] then [] else [subs[0].text] + Texts(subs[1..])
  }

  /** Texts distribute over concatenation. */
  lemma TextsConcat(a: seq<Subtitle>, b: seq<Subtitle>)
    ensures Texts(a + b) == Texts(a) + Texts(b)
  {
  }

  /** The lookup keeps list order: it distributes over concatenation. */
  lemma {:induction false} ActiveAtConcat(a: seq<Subtitle>, b: seq<Subtitle>, t: real)
    ensures ActiveAt(a + b, t) == ActiveAt(a, t) + ActiveAt(b, t)
  {
    if a == [] {
      assert a + b == b;
    } else {
      assert (a + b)[1..] == a[1..] + b;
      ActiveAtConcat(a[1..], b, t);
    }
  }

  /** If every entry is active, the lookup returns the whole list. */
  lemma {:induction false} ActiveAtAll(subs: seq<Subtitle>, t: real)
    requires forall i :: 0 <= i < |subs| ==> IsActive(subs[i], t)
    ensures ActiveAt(subs, t) == subs
  {
    if subs != [] {
      ActiveAtAll(subs[1..], t);
    }
  }

  /** If no entry is active, nothing is shown. */
  lemma {:induction false} ActiveAtNone(subs: seq<Subtitle>, t: real)
    requires forall i :: 0 <= i < |subs| ==> !IsActive(subs[i], t)
    ensures ActiveAt(subs, t) == []
  {
    if subs != [] {
      ActiveAtNone(subs[1..], t);
    }
  }

  /** At the shared boundary `t = 10` of the seed data both captions are shown. */
  lemma SeedBoundaryShowsBoth()
    ensures ActiveAt(Seed(), 10.0) == Seed()
  {
    ActiveAtAll(Seed(), 10.0);
  }

  /**
   * In a well-formed list two captions are shown together only at a shared
   * boundary: one ends exactly where the other starts, at the instant `t`.
   */
  lemma TwoActiveOnlyAtBoundary(subs: seq<Subtitle>, i: nat, j: nat, t: real)
    requires WellFormed(subs) && i < |subs| && j < |subs| && i != j
    requires IsActive(subs[i], t) && IsActive(subs[j], t)
    ensures (subs[i].end == t && subs[j].start == t) || (subs[j].end == t && subs[i].start == t)
  {
    assert !Overlaps(subs[i], subs[j].start, subs[j].end);
  }

  /** Strictly inside an entry of a well-formed list, that entry is the only caption shown. */
  lemma InteriorInstantShowsOne(subs: seq<Subtitle>, i: nat, t: real)
    requires WellFormed(subs) && i < |subs|
    requires subs[i].start < t < subs[i].end
    ensures ActiveAt(subs, t) == [subs[i]]
  {
    forall j | 0 <= j < |subs| && j != i
      ensures !IsActive(subs[j], t)
    {
      assert !Overlaps(subs[j], subs[i].start, subs[i].end);
    }
    var before, after := subs[..i], subs[i + 1..];
    assert subs == before + ([subs[i]] + after);
    ActiveAtNone(before, t);
    assert forall k :: 0 <= k < |after| ==> after[k] == subs[i + 1 + k];
    ActiveAtNone(after, t);
    ActiveAtConcat(before, [subs[i]] + after, t);
    ActiveAtConcat([subs[i]], after, t);
    ActiveAtAll([subs[i]], t);
  }

  // ---------------------------------------------------------------------------
  // Edit by id (`subtitles.map(...)`)
  // ---------------------------------------------------------------------------

  /** What the edit's `map` callback does to one entry. */
  function EditOne(sub: Subtitle, id: string, text: string, start: real, end: real): Subtitle {
    if sub.id == id then Subtitle(sub.id, text, start, end) else sub
  }

  /**
   * The list after an edit of entry `id`: every entry carrying that id gets the
   * new text and range and keeps its id; every other entry stays as it was, in
   * its place. Nothing about order or overlap is checked.
   */
  function ReplaceById(subs: seq<Subtitle>, id: string, text: string, start: real, end: real): (r: seq<Subtitle>)
    ensures |r| == |subs|
    ensures forall i :: 0 <= i < |subs| ==> r[i].id == subs[i].id
    ensures forall i :: 0 <= i < |subs| && subs[i].id == id ==>
              r[i].text == text && r[i].start == start && r[i].end == end
    ensures forall i :: 0 <= i < |subs| && subs[i].id != id ==> r[i] == subs[i]
  {
    if subs == [] then []
    else [EditOne(subs[0], id, text, start, end)] + ReplaceById(subs[1..], id, text, start, end)
  }

  /** With unique ids, an edit of a present id changes exactly one position. */
  lemma ReplaceByIdChangesOne(subs: seq<Subtitle>, k: nat, text: string, start: real, end: real)
    requires UniqueIds(subs) && k < |subs|
    ensures ReplaceById(subs, subs[k].id, text, start, end)
            == subs[k := Subtitle(subs[k].id, text, start, end)]
  {
    var r := ReplaceById(subs, subs[k].id, text, start, end);
    var s := subs[k := Subtitle(subs[k].id, text, start, end)];
    forall i | 0 <= i < |subs| ensures r[i] == s[i] {
      if i != k {
        assert subs[i].id != subs[k].id;
      }
    }
  }

  /** An edit of an id that is not in use leaves the list as it is. */
  lemma ReplaceByIdAbsent(subs: seq<Subtitle>, id: string, text: string, start: real, end: real)
    requires id !in Ids(subs)
    ensures ReplaceById(subs, id, text, start, end) == subs
  {
    var r := ReplaceById(subs, id, text, start, end);
    forall i | 0 <= i < |subs| ensures r[i] == subs[i] {
      assert subs[i].id in Ids(subs);
    }
  }

  /** An edit keeps the set of ids and their uniqueness. */
  lemma ReplaceByIdKeepsIds(subs: seq<Subtitle>, id: string, text: string, start: real, end: real)
    ensures Ids(ReplaceById(subs, id, text, start, end)) == Ids(subs)
    ensures UniqueIds(subs) ==> UniqueIds(ReplaceById(subs, id, text, start, end))
  {
    var r := ReplaceById(subs, id, text, start, end);
    forall x | x in Ids(r) ensures x in Ids(subs) {
      var i :| 0 <= i < |r| && r[i].id == x;
      assert subs[i].id == x;
    }
  }

  /**
   * The edit as written can break the invariant: on the seed data, moving
   * entry "1" to `[5, 15]` makes it overlap entry "2", and moving it to
   * `[10, 5]` gives it an empty range.
   */
  lemma UpdateBreaksWellFormed()
    ensures !WellFormed(ReplaceById(Seed(), "1", "x", 5.0, 15.0))
    ensures !WellFormed(ReplaceById(Seed(), "1", "x", 10.0, 5.0))
  {
    var r := ReplaceById(Seed(), "1", "x", 5.0, 15.0);
    assert r[0].start == 5.0 && r[0].end == 15.0 && r[1] == Seed()[1];
    assert Overlaps(r[0], r[1].start, r[1].end);
    var q := ReplaceById(Seed(), "1", "x", 10.0, 5.0);
    assert q[0].start == 10.0 && q[0].end == 5.0;
  }

  /**
   * Ids drawn at random may repeat an id in use. If a new entry `[20, 30]`
   * received id "1", an edit of "1" would give both entries carrying it the
   * same new range, so they would overlap each other.
   */
  lemma DuplicateIdEditHitsBoth()
    ensures var subs := Seed() + [Subtitle("1", "z", 20.0, 30.0)];
            var r := ReplaceById(subs, "1", "x", 40.0, 50.0);
            r[0].start == r[2].start == 40.0 && r[0].end == r[2].end == 50.0 && !WellFormed(r)
  {
    var subs := Seed() + [Subtitle("1", "z", 20.0, 30.0)];
    var r := ReplaceById(subs, "1", "x", 40.0, 50.0);
    assert subs[0].id == "1" && subs[2].id == "1";
    assert Overlaps(r[0], r[2].start, r[2].end);
  }

  /** The entries whose id differs from `id`, in list order. */
  function OthersThan(subs: seq<Subtitle>, id: string): (r: seq<Subtitle>)
    ensures forall k :: 0 <= k < |r| ==> r[k] in subs && r[k].id != id
    ensures forall i :: 0 <= i < |subs| && subs[i].id != id ==> subs[i] in r
  {
    if subs == [] then []
    else (if subs[0].id != id then [subs[0]] else []) + OthersThan(subs[1..], id)
  }

  /**
   * An edit that re-validates like a create keeps the invariant: a proper range
   * that overlaps none of the other entries. Unique ids are needed as well, or
   * two entries sharing the id would both receive the same range.
   */
  lemma CheckedUpdatePreservesWellFormed(subs: seq<Subtitle>, id: string, text: string, start: real, end: real)
    requires WellFormed(subs) && UniqueIds(subs)
    requires start < end && !IsOverlapping(OthersThan(subs, id), start, end)
    ensures WellFormed(ReplaceById(subs, id, text, start, end))
  {
    var r := ReplaceById(subs, id, text, start, end);
    var others := OthersThan(subs, id);
    forall i, j | 0 <= i < |r| && 0 <= j < |r| && i != j
      ensures !Overlaps(r[i], r[j].start, r[j].end)
    {
      if subs[i].id == id && subs[j].id != id {
        assert subs[j] in others;
        var k :| 0 <= k < |others| && others[k] == subs[j];
        assert !Overlaps(others[k], start, end);
        OverlapsSymmetric(r[i], r[j]);
      } else if subs[j].id == id && subs[i].id != id {
        assert subs[i] in others;
        var k :| 0 <= k < |others| && others[k] == subs[i];
        assert !Overlaps(others[k], start, end);
      }
    }
  }
}
