# Subtitle interval store

A Dafny model of the logic of a browser subtitle timing editor. The editor
keeps a list of subtitle entries `{id, text, start, end}` (times in seconds)
and a selected row. The add button either edits the selected entry or
creates a new one. A create is accepted only for a proper range (`start < end`)
that does not overlap any existing entry under the half-open test
`start < sub.end && end > sub.start`. During playback, every entry with
`start <= t <= end` (inclusive bounds) is drawn as a caption. The listing
beside the video is a copy of the entries sorted by start.

Files:

- `subtitles.dfy` (module `Subtitles`): the entry datatype, the seed data,
  the overlap test, the store invariant (`WellFormed`: proper ranges,
  pairwise non-overlapping; `UniqueIds`), the active-caption lookup and the
  by-id replacement behind an edit, with lemmas about each.
- `listing.dfy` (module `Listing`): the sorted copy, as a stable insertion
  sort by start. It is proved to be an ordered permutation. In a well-formed
  store it is also proved to be the only start-ordered permutation, so any
  correct library sort gives the same listing.
- `store.dfy` (module `Store`): class `SubtitleStore`. Its fields `entries`
  and `selected` stand for the module-level `subtitles` and
  `selectedSubtitle`. Its methods are the click handler (`Submit`) and its
  two branches (`Create`, `Update`), row selection, the sorted listing and
  the caption pass. `UpdateChecked` is the corrected edit described under
  Findings. `EditingSession` is a client walk-through on the seed data
  (a rejected overlap, an ignored empty text, a create, an unchecked edit
  that breaks the invariant) that verifies from the methods' contracts alone.

Times are `real`. The model only compares them and does no floating-point
arithmetic. Ids are strings supplied by the caller. Selection is held as the
selected entry's id, not as a list-row element.

## Model

| member | source | states |
|---|---|---|
| `Subtitles.Seed` | script.js:18-31 | The initial list is two entries, `[0,10]` and `[10,20]`, that meet at 10. It satisfies the store invariant and its ids are unique. |
| `Subtitles.IsOverlapping` | script.js:101-105 | True exactly when some entry of the list satisfies `start < sub.end && end > sub.start`. |
| `Subtitles.OverlapsSymmetric` | script.js:103 | The overlap test gives the same answer with the two ranges swapped. |
| `Subtitles.TouchingRangesDoNotOverlap` | script.js:103 | A range that only touches an entry (`end == sub.start` or `start == sub.end`) does not overlap it. |
| `Subtitles.DisjointRangeIsNotOverlapping` | script.js:101-105 | A range that lies wholly before or after every entry is not overlapping. |
| `Subtitles.SeedOverlapExamples` | script.js:101-105 | On the seed data, `[10,20)` and `[5,15)` overlap. `[20,30)` and `[-5,0)` only touch an entry, so they do not. |
| `Subtitles.AppendPreservesWellFormed` | script.js:158-166 | Appending a proper range that overlaps nothing keeps every entry proper and all entries pairwise non-overlapping. |
| `Subtitles.UniqueIdsCount` | script.js:160-166 | With unique ids, the number of ids in use equals the number of entries. |
| `Subtitles.AppendPreservesUniqueIds` | script.js:160-166 | Appending an entry whose id is not in use keeps ids unique. |
| `Subtitles.WellFormedStartsDistinct` | script.js:101-105 | In a well-formed list, no two entries start at the same instant. |
| `Subtitles.ActiveAt` | script.js:38-39 | The captions at time `t` are elements of the list with `start <= t <= end`, and every such element is among them. |
| `Subtitles.ActiveAtConcat` | script.js:38-39 | The lookup distributes over concatenation, so it keeps list order. |
| `Subtitles.ActiveAtAll` | script.js:38-39 | When every entry is active, the lookup returns the whole list in order. |
| `Subtitles.ActiveAtNone` | script.js:38-39 | When no entry is active, nothing is shown. |
| `Subtitles.SeedBoundaryShowsBoth` | script.js:18-39 | At `t = 10` on the seed data, both entries are shown, in list order. |
| `Subtitles.TwoActiveOnlyAtBoundary` | script.js:38-39 | In a well-formed list, two distinct entries are active together only when one ends at `t` and the other starts at `t`. |
| `Subtitles.InteriorInstantShowsOne` | script.js:38-39 | In a well-formed list, strictly inside an entry's range that entry is the only caption shown. |
| `Subtitles.ReplaceById` | script.js:142-153 | An edit keeps the length and every id. Each entry with the matching id gets the new text, start and end. Every other entry is unchanged in its position. |
| `Subtitles.ReplaceByIdChangesOne` | script.js:142-153 | With unique ids, editing a present id changes only that one position, and the entry keeps its id. |
| `Subtitles.ReplaceByIdAbsent` | script.js:142-153 | Editing an id that is not in use leaves the list unchanged. |
| `Subtitles.ReplaceByIdKeepsIds` | script.js:144-145 | An edit keeps the set of ids in use and keeps them unique. |
| `Subtitles.UpdateBreaksWellFormed` | script.js:140-154 | The edit as written breaks the invariant on the seed data. Moving entry "1" to `[5,15]` makes it overlap entry "2". Moving it to `[10,5]` gives it an improper range. |
| `Subtitles.DuplicateIdEditHitsBoth` | script.js:142-161 | If a random id repeats "1", an edit of "1" gives both entries carrying it the same range, and they then overlap. |
| `Subtitles.CheckedUpdatePreservesWellFormed` | script.js:140-158 | An edit that checks its range like a create (proper, and overlapping none of the other entries) keeps the invariant, provided ids are unique. |
| `Listing.InsertByStart` | script.js:51 | Inserting into a start-ordered list gives a start-ordered list with that one element added to the multiset. |
| `Listing.SortByStart` | script.js:50-51 | The listing is ordered by ascending start and is a permutation of the entries. |
| `Listing.SortWellFormedIsStrict` | script.js:50-51 | The listing of a well-formed store is strictly ordered by start. |
| `Listing.SortedPermutationUnique` | script.js:50-51 | Two start-ordered permutations of one collection are equal when one of them is strictly ordered. |
| `Listing.ListingIsDetermined` | script.js:50-51 | In a well-formed store, every start-ordered permutation of the entries equals the listing. |
| `Listing.ListingExample` | script.js:50-51 | Entries added as `[20,30]`, `[0,10]`, `[10,20]` are listed as `[0,10]`, `[10,20]`, `[20,30]`. |
| `Store.SubtitleStore.constructor` | script.js:18-32 | The editor starts with the seed entries and nothing selected. |
| `Store.SubtitleStore.Select` | script.js:67-71 | Clicking a row selects that entry's id. The list is unchanged. |
| `Store.SubtitleStore.Create` | script.js:158-172 | A create succeeds exactly when `start < end` and nothing overlaps. On success, exactly one entry with the given id, text, start and end is appended after the unchanged earlier entries. Otherwise the list is unchanged. The create keeps the invariant, and keeps ids unique when the new id is fresh. |
| `Store.SubtitleStore.Update` | script.js:140-154 | The list becomes the by-id replacement of the old list, with no range or overlap check. The selection is cleared. Ids are kept. |
| `Store.SubtitleStore.UpdateChecked` | script.js:140-154 | The corrected edit. It is applied exactly when the range is proper and overlaps none of the other entries, and it then keeps the invariant. Otherwise the list and the selection are unchanged. |
| `Store.SubtitleStore.Submit` | script.js:133-173 | Empty text changes nothing, including the selection. With a row selected, the list is the by-id replacement and the selection is cleared. With no row selected, the handler either appends exactly one entry (`Created`) or leaves the list unchanged (`Rejected`), matching the create test. A submit with no row selected keeps `WellFormed`. Unique ids stay unique after an edit, and after a create whose new id is not in use. |
| `Store.SubtitleStore.SortedListing` | script.js:48-51 | Returns a start-ordered permutation of the entries, of the same length. The list itself is not reordered, because the method modifies nothing. |
| `Store.SubtitleStore.ActiveCaptions` | script.js:34-45 | The pass over the list draws exactly the texts of the entries active at `t`, in list order. |

## Left out

- Canvas and list rendering (`clearRect`, `fillText`, `innerHTML`, `createElement`, `toFixed` formatting, the range marks): presentation over browser APIs. `ActiveCaptions` returns the texts that would be drawn.
- The start/end slider handlers and the percentage-to-seconds conversion: float arithmetic on control values. `Submit` takes `start` and `end` in seconds as parameters. The slider handlers also write to the selected row element, not to the list, so they change nothing the model holds.
- Random id generation: nondeterministic. `Submit` and `Create` take the new id as a parameter. They do not require it to be fresh; they ensure only that ids stay unique when it is. `DuplicateIdEditHitsBoth` shows what a repeated id leads to.
- Event wiring (`timeupdate`, `loadedmetadata`, `DOMContentLoaded`, `resize`) and the `alert`: I/O. A rejection is reported as the `Rejected` outcome.
- The selection as a DOM element and the highlighting of the active row: selection is modelled as an optional id.
- `Listing.SortByStart`: does not state stability for entries with equal start times. In a well-formed store no two entries share a start (`WellFormedStartsDistinct`), and `ListingIsDetermined` shows that the order is then forced. Equal starts can arise only after an unchecked edit.
- `Store.SubtitleStore.Submit`: keeps the preservation of `WellFormed` only for the create path, because the update path as written does not preserve it (see Findings).

## Findings

| source | as written | input that shows it | evidently intended | confidence | as-written member | corrected member |
|---|---|---|---|---|---|---|
| script.js:140-154 | An edit replaces the selected entry's text and range without checking `start < end` or overlap with the other entries. | Seed data, select entry "1", submit text "x" with range `[5, 15]`: it now overlaps entry "2" (`[10, 20]`). With `[10, 5]` the entry's range is improper. | The edit validates like a create: a proper range that overlaps none of the other entries, otherwise rejected with the state unchanged. | medium; not executed | `Subtitles.UpdateBreaksWellFormed` | `Store.SubtitleStore.UpdateChecked` |

`Store.SubtitleStore.Submit` models the handler as written, so it calls
`Update`. `UpdateChecked` is the corrected edit, and
`Subtitles.CheckedUpdatePreservesWellFormed` proves that it keeps the
invariant.
