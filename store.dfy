/**
 * The editor's mutable state: the list of entries and the selected row, and
 * the handler of the add button that either edits the selected entry or
 * creates a new one. The object stands for the module-level variables
 * `subtitles` and `selectedSubtitle`; selection is held as the entry's id.
 */
module Store {
  import opened Subtitles
  import opened Listing

  /** What one press of the add button did. */
  datatype Outcome =
    | Ignored    // empty text: nothing happens
    | Updated    // an entry was selected: it was replaced by id
    | Created    // a new entry was appended
    | Rejected   // improper or overlapping range: the user is alerted

  class SubtitleStore {
    /** The `subtitles` list, in insertion order. */
    var entries: seq<Subtitle>
    /** The id of the selected row, if a row is selected. */
    var selected: Option<string>

    /** The editor starts with the two seed entries and nothing selected. */
    constructor ()
      ensures entries == Seed() && selected == None
      ensures WellFormed(entries) && UniqueIds(entries)
    {
      entries := Seed();
      selected := None;
    }

    /** Clicking a row of the listing selects its entry; the list is untouched. */
    method Select(id: string)
      modifies this
      ensures selected == Some(id) && entries == old(entries)
    {
      selected := Some(id);
    }

    /**
     * The create branch: the entry is pushed only when `start < end` and the
     * range overlaps no entry; otherwise the list stays as it is.
     */
    method Create(id: string, text: string, start: real, end: real) returns (ok: bool)
      modifies this
      ensures ok <==> start < end && !IsOverlapping(old(entries), start, end)
      ensures entries == if ok then old(entries) + [Subtitle(id, text, start, end)] else old(entries)
      ensures selected == old(selected)
      ensures old(WellFormed(entries)) ==> WellFormed(entries)
      ensures old(UniqueIds(entries)) && id !in old(Ids(entries)) ==> UniqueIds(entries)
    {
      ok := start < end && !IsOverlapping(entries, start, end);
      if ok {
        var sub := Subtitle(id, text, start, end);
        if WellFormed(entries) {
          AppendPreservesWellFormed(entries, sub);
        }
        if UniqueIds(entries) && id !in Ids(entries) {
          AppendPreservesUniqueIds(entries, sub);
        }
        entries := entries + [sub];
      }
    }

    /**
     * The update branch as written: every entry with the given id takes the
     * new text and range, all others stay in place, no range or overlap
     * check is made, and the selection is cleared.
     */
    method Update(id: string, text: string, start: real, end: real)
      modifies this
      ensures entries == ReplaceById(old(entries), id, text, start, end)
      ensures selected == None
      ensures Ids(entries) == old(Ids(entries))
      ensures old(UniqueIds(entries)) ==> UniqueIds(entries)
    {
      ReplaceByIdKeepsIds(entries, id, text, start, end);
      entries := ReplaceById(entries, id, text, start, end);
      selected := None;
    }

    /**
     * An update that validates like a create: a proper range that overlaps
     * none of the other entries is applied and the selection cleared;
     * anything else is rejected and changes nothing.
     */
    method UpdateChecked(id: string, text: string, start: real, end: real) returns (ok: bool)
      modifies this
      ensures ok <==> start < end && !IsOverlapping(OthersThan(old(entries), id), start, end)
      ensures entries == if ok then ReplaceById(old(entries), id, text, start, end) else old(entries)
      ensures selected == if ok then None else old(selected)
      ensures old(WellFormed(entries) && UniqueIds(entries)) ==> WellFormed(entries) && UniqueIds(entries)
    {
      ok := start < end && !IsOverlapping(OthersThan(entries, id), start, end);
      if ok {
        if WellFormed(entries) && UniqueIds(entries) {
          CheckedUpdatePreservesWellFormed(entries, id, text, start, end);
        }
        Update(id, text, start, end);
      }
    }

    /**
     * The click handler of the add button. Empty text does nothing. With a
     * row selected, the selected entry is edited. Otherwise a create is
     * attempted with `newId`, the id the editor would draw for it.
     */
    method Submit(text: string, start: real, end: real, newId: string) returns (o: Outcome)
      modifies this
      ensures text == [] ==> o == Ignored && entries == old(entries) && selected == old(selected)
      ensures text != [] && old(selected).Some? ==>
                o == Updated && selected == None &&
                entries == ReplaceById(old(entries), old(selected).value, text, start, end)
      ensures text != [] && old(selected).None? && start < end && !IsOverlapping(old(entries), start, end) ==>
                o == Created && selected == None &&
                entries == old(entries) + [Subtitle(newId, text, start, end)]
      ensures text != [] && old(selected).None? && !(start < end && !IsOverlapping(old(entries), start, end)) ==>
                o == Rejected && selected == None && entries == old(entries)
      ensures old(selected).None? && old(WellFormed(entries)) ==> WellFormed(entries)
      ensures old(UniqueIds(entries)) && (old(selected).Some? || newId !in old(Ids(entries))) ==>
                UniqueIds(entries)
    {
      if text == [] {
        return Ignored;
      }
      match selected {
        case Some(id) =>
          Update(id, text, start, end);
          o := Updated;
        case None =>
          var ok := Create(newId, text, start, end);
          o := if ok then Created else Rejected;
      }
    }

    /** The sorted copy built for the listing; the list itself keeps its order. */
    method SortedListing() returns (r: seq<Subtitle>)
      ensures SortedByStart(r) && multiset(r) == multiset(entries)
      ensures |r| == |entries|
    {
      r := SortByStart(entries);
      assert |r| == |multiset(r)| == |multiset(entries)| == |entries|;
    }

    /**
     * The caption pass of `renderSubtitles`: walks the list in order and
     * collects the text of every entry active at time `t`.
     */
    method ActiveCaptions(t: real) returns (drawn: seq<string>)
      ensures drawn == Texts(ActiveAt(entries, t))
    {
      drawn := [];
      var i := 0;
      while i < |entries|
        invariant 0 <= i <= |entries|
        invariant drawn == Texts(ActiveAt(entries[..i], t))
      {
        var sub := entries[i];
        ActiveAtConcat(entries[..i], [sub], t);
        assert entries[..i + 1] == entries[..i] + [sub];
        if IsActive(sub, t) {
          assert ActiveAt([sub], t) == [sub] by { assert [sub][1..] == []; }
          TextsConcat(ActiveAt(entries[..i], t), [sub]);
          drawn := drawn + [sub.text];
        } else {
          assert ActiveAt([sub], t) == [] by { assert [sub][1..] == []; }
        }
        i := i + 1;
      }
      assert entries[..i] == entries;
    }
  }

  /** A session on the seed data, showing what a caller can rely on. */
  method EditingSession() {
    var store := new SubtitleStore();
    SeedOverlapExamples();
    var o := store.Submit("y", 10.0, 20.0, "3");
    assert o == Rejected && store.entries == Seed();
    o := store.Submit("", 20.0, 30.0, "3");
    assert o == Ignored;
    o := store.Submit("z", 20.0, 30.0, "3");
    assert o == Created && |store.entries| == 3 && WellFormed(store.entries);
    store.Select("1");
    o := store.Submit("moved", 5.0, 15.0, "4");
    assert o == Updated && store.selected == None && |store.entries| == 3;
    assert store.entries[0].start == 5.0 && store.entries[1] == Seed()[1];
    assert !WellFormed(store.entries) by {
      assert Overlaps(store.entries[0], store.entries[1].start, store.entries[1].end);
    }
  }
}
