# GeoNotes note store, modelled in Dafny

GeoNotes is a browser page where a user writes a title and a note. The page
attaches the device's position and keeps the note in `localStorage`. It lists
the saved notes, which the user can copy, edit, delete and reorder by drag and
drop. This project models the state machine behind that page, as
`geonotes/app.js` implements it. That state is the `localStorage` table, the
`editingKey` edit marker and the two form inputs. The model covers the handlers
that change them and the key selection the list is rendered from.

Modules, in dependency order:

- `StringOrder` (`string_order.dfy`) — the order JavaScript's default
  `Array.prototype.sort()` puts strings in. It is character by character, and a
  proper prefix comes first.
  - `Sort` is a reference insertion sort for that order.
  - `SortedUnique` proves that a sequence has exactly one sorted arrangement. So
    any correct sort the browser uses gives the same list.
  - It also holds small facts about sequences of distinct keys and about
    enumerating a set.
- `Text` (`text.dfy`) — the two pieces of string behaviour the page relies on:
  - `String.prototype.trim()`, with the ECMAScript whitespace and line
    terminator set;
  - the decimal rendering of `Date.now()` inside a template literal.
- `NoteKeys` (`note_keys.dfy`) — the `note-` key namespace:
  - the key a save mints, `note-{now}`, and the key a reorder gives position
    `i`, `note-{i}-{now}`, each with an injectivity proof;
  - the listing pipeline `Object.keys(...).filter(k => k.startsWith("note-")).sort()`;
  - `indexOf`, and the two `splice` calls of a drag move.
- `Notes` (`notes.dfy`) — the stored record and what the geolocation service
  answers for one save.
- `Reorder` (`reorder.dfy`) — `Reordered`, the store after
  `reorderNotes(dragged, target)` as a function of the store before it, and the
  lemmas about it.
- `GeoNotes` (`geonotes.dfy`) — the class `NotesPage`:
  - its fields are `storage` (`localStorage` as `map<string, Note>`),
    `editingKey`, `titleInput` and `noteInput`;
  - its methods are the save click handler, `editNote`, `deleteNote`, the key
    selection of `loadNotes`, `reorderNotes`, and the drop handler.
    `reorderNotes` has three loops. The loops that remove the old keys and
    write the new ones are the methods `RemoveKeys` and `WriteEntries`;
  - outside the class:
    - the save-key choice `SaveKey`, with `SaveKeyListed` on what it means for
      the list;
    - the drop guard `DropAccepted`;
    - `FillUpdated`, the first loop of `reorderNotes`, which builds the
      `updated` object. It reads only the storage it is given, so it sits
      outside the class;
    - the clipboard text of `copyNoteContent`;
    - a client method showing that an edit followed by a save overwrites the
      edited note.

Browser inputs become parameters:

- the geolocation answer (`Unsupported`, `PositionError(code)` or
  `Position(coords)`);
- `Date.now()`, as `now`, or as `stamp(i)` for each iteration of the reorder
  loop;
- `new Date().toISOString()`, as `timestamp`;
- the answer to `confirm(...)`, as `confirmed`;
- what `Object.keys(localStorage)` returns, as `enumeration`. The methods
  require only that it lists every stored `note-` key once and no other
  `note-` key (`ListsEveryNoteKey`). Keys outside that namespace may be
  missing, as a stored `length` or `key` is hidden by the storage object's own
  properties.

`ListingIgnoresEnumerationOrder` shows that the sorted note keys do not depend
on the order the browser listed them in. `ListingOfNoteEnumeration` shows that
they do not depend on the keys outside `note-` either. So `LoadNotes` and `ReorderNotes` are
specified over the key set alone.

Behaviour of `geonotes/app.js` that the model reproduces as written:

- An edit does not keep the note's original position or time. Saving an edit
  asks for the position again and stamps a new `timestamp` (app.js:26-35). It
  writes a whole new record under the edited key.
- `reorderNotes` gives every note a new key, `note-{position}-{now}`
  (app.js:157-162), so note keys are not stable across a reorder.
  `ReorderRekeysNotes` states the new keys.
- The list shows notes in string order of their keys (app.js:89). After a
  reorder that order is the dropped order only while there are at most ten
  notes (`ReorderShownUpToTen`). From eleven notes on, `note-10-…` sorts before
  `note-2-…`, so the list no longer matches the dropped order
  (`ReorderNotShownFromEleven`).
- A failed or unsupported geolocation request ends the save with a toast, and
  nothing is written (app.js:21-24, 61-76). No fallback position is used.

## Model

| member | source | states |
|---|---|---|
| StringOrder.Less | geonotes/app.js:89 | the comparison of the default `sort()`: character by character, with a proper prefix first |
| StringOrder.Sort | geonotes/app.js:87-89 | the result is sorted in JavaScript's default string order and is a permutation of the input |
| StringOrder.SortedUnique | geonotes/app.js:89 | two sorted sequences with the same multiset are equal, so every correct sort yields the same key list |
| StringOrder.LessTransitive | geonotes/app.js:89 | the string order used by `sort()` is transitive |
| StringOrder.LessTotal | geonotes/app.js:89 | any two different strings are ordered one way or the other |
| StringOrder.LessCommonPrefix | geonotes/app.js:89 | strings sharing a prefix (such as `note-`) compare as their remainders do |
| StringOrder.SetEnumerationDistinct | geonotes/app.js:87 | any listing of a key set names each key once and names exactly the set's members |
| StringOrder.DistinctCardinality | geonotes/app.js:87 | a duplicate-free key list has as many elements as its set of keys |
| StringOrder.Enumeration | geonotes/app.js:87 | every finite key set has a listing, as `Object.keys` produces one |
| Text.Trim | geonotes/app.js:13-14 | the trimmed text is empty exactly when the input is all whitespace, and otherwise starts and ends with a non-whitespace character |
| Text.TrimIsInnerSlice | geonotes/app.js:13-14 | the trimmed text is the part of the input between a whitespace prefix and a whitespace suffix |
| Text.TrimIdempotent | geonotes/app.js:13-14 | trimming an already trimmed input changes nothing |
| Text.Decimal | geonotes/app.js:37 | the rendering of a number is a non-empty digit string with no leading zero, one digit long exactly below ten |
| Text.DecimalRoundTrip | geonotes/app.js:37 | reading the digits back gives the number |
| Text.DecimalInjective | geonotes/app.js:37 | different numbers render differently |
| NoteKeys.IsNoteKey | geonotes/app.js:88 | `startsWith("note-")`: the key is at least five characters long and begins with `note-` |
| NoteKeys.NewNoteKey | geonotes/app.js:37 | a minted key `note-{now}` lies in the listed `note-` namespace |
| NoteKeys.NewNoteKeyInjective | geonotes/app.js:37 | saves at different instants mint different keys |
| NoteKeys.ReorderKey | geonotes/app.js:158 | a reorder key `note-{i}-{now}` lies in the `note-` namespace |
| NoteKeys.ReorderKeyInjective | geonotes/app.js:158 | two reorder keys are equal only for the same position and instant, because the position ends at the first `-` |
| NoteKeys.ReorderKeyOrderBelowTen | geonotes/app.js:158 | below position ten, string order on reorder keys is position order, whatever the instants |
| NoteKeys.ReorderKeyTenBeforeTwo | geonotes/app.js:158 | the key of position 10 sorts before the key of position 2 |
| NoteKeys.Filter | geonotes/app.js:88 | each `note-` key keeps its number of occurrences and every other key is dropped |
| NoteKeys.Listing | geonotes/app.js:87-89 | the listing is sorted and holds each `note-` key of the input as often as the input does, and nothing else |
| NoteKeys.SortedNoteKeys | geonotes/app.js:87-89 | the listed keys of a store are strictly ascending and are exactly its `note-` keys |
| NoteKeys.ListedCount | geonotes/app.js:87-94 | the list is as long as the number of `note-` keys stored |
| NoteKeys.ListingIgnoresEnumerationOrder | geonotes/app.js:87-89 | filtering and sorting any enumeration of the key set gives the same list |
| NoteKeys.ListingOfNoteEnumeration | geonotes/app.js:87-89 | any enumeration that lists each stored `note-` key once gives the same list, whatever it holds outside that namespace |
| NoteKeys.SortedNoteKeysUnique | geonotes/app.js:87-89 | any strictly ascending list of exactly the `note-` keys is that list |
| NoteKeys.IndexOf | geonotes/app.js:147-148 | -1 exactly when the key is absent; otherwise the position of its first occurrence |
| NoteKeys.RemoveAt | geonotes/app.js:153 | one element fewer; elements before the index stay and later ones shift down |
| NoteKeys.InsertAt | geonotes/app.js:154 | one element more, with the new element at the index and the others shifted around it |
| NoteKeys.Move | geonotes/app.js:152-154 | the moved element is at the target index, removing it there gives the original with the source removed, and the multiset is unchanged |
| Reorder.ValuesAt | geonotes/app.js:158 | the values read are those stored under the keys, position by position |
| Reorder.ReorderKeys | geonotes/app.js:157-158 | position `i` gets `note-{i}-{stamp(i)}`; the keys are distinct `note-` keys |
| Reorder.ReorderKeyIsNew | geonotes/app.js:158 | the key of a position differs from the keys of all earlier positions |
| Reorder.Rekeyed | geonotes/app.js:156-159 | the `updated` object holds exactly the new keys, each with the value of its position |
| Reorder.ReorderedFrom | geonotes/app.js:146-162 | the store after `reorderNotes`, from the key list it computed. It is unchanged when either key is not listed. Otherwise every listed key is removed, and the values read along the moved list are written under `note-{i}-{stamp(i)}`. The lemmas below state its properties |
| Reorder.Reordered | geonotes/app.js:145-163 | `ReorderedFrom` applied to the store's own sorted note keys: the storage `reorderNotes` leaves |
| Reorder.ReorderIgnoresUnlistedKeys | geonotes/app.js:147-150 | if either key is not a current note key, the store is unchanged |
| Reorder.ReorderKeepsOtherEntries | geonotes/app.js:146-162 | entries outside the `note-` namespace are neither added, removed nor changed |
| Reorder.ReorderRekeysNotes | geonotes/app.js:157-162 | afterwards the note keys are exactly the keys of positions 0 to n-1, so the number of notes is unchanged |
| Reorder.ReorderMovesDraggedNote | geonotes/app.js:152-162 | the values along the new keys are the old listed values with the dragged one moved to the target index; the others keep their relative order and the value multiset is unchanged |
| Reorder.ValuesAtMove | geonotes/app.js:152-158 | reading values along a moved key list is moving the values read |
| Reorder.ReadBackRekeyed | geonotes/app.js:161-162 | after the writes, reading the new keys gives back the moved values |
| Reorder.ReorderShownUpToTen | geonotes/app.js:146-158 | with at most ten notes, the next listing is the new keys in dropped order |
| Reorder.ReorderNotShownFromEleven | geonotes/app.js:146-158 | with eleven notes or more, the next listing is not the dropped order |
| GeoNotes.SaveKey | geonotes/app.js:37 | `editingKey \|\| note-{now}`: the key is never empty; it is the marker or the fresh `note-{now}`; and it is a `note-` key whenever the marker is absent, empty (falsy) or a note key |
| GeoNotes.SaveKeyListed | geonotes/app.js:37-38 | with a marker that is absent, empty or a note key, the saved key is in the next listing; the listing grows by one when the key is new and keeps its length when it overwrites a stored note |
| GeoNotes.DropAccepted | geonotes/app.js:128 | the drop handler reorders only when the dragged key is non-empty and differs from the target |
| GeoNotes.CopyText | geonotes/app.js:191 | the clipboard text is the pin header, the title, a blank line and the content, by length |
| GeoNotes.CopyTextRoundTrip | geonotes/app.js:191 | a single-line title and any content are recovered from the copied text |
| GeoNotes.FillUpdated | geonotes/app.js:156-159 | the loop builds `updated` as the moved values under `note-{i}-{stamp(i)}`, with keys added in position order |
| GeoNotes.NotesPage.constructor | geonotes/app.js:4-7 | a fresh page has no edit in progress and empty inputs over the stored table |
| GeoNotes.NotesPage.Save | geonotes/app.js:12-78 | an empty trimmed input, a missing geolocation or a location error change nothing; a position writes one record of trimmed title and content under the chosen key, clears both inputs and the edit marker |
| GeoNotes.NotesPage.EditNote | geonotes/app.js:168-175 | for a stored key, the form holds the note and the marker is the key; for a missing key nothing changes; storage is never touched |
| GeoNotes.NotesPage.DeleteNote | geonotes/app.js:180-185 | with confirmation only the key is removed (a no-op when absent); without it nothing changes |
| GeoNotes.NotesPage.NoteKeyList | geonotes/app.js:87-89 | the filtered and sorted key list is strictly ascending, holds exactly the stored `note-` keys, and does not depend on the enumeration order |
| GeoNotes.NotesPage.LoadNotes | geonotes/app.js:83-94 | the rendered keys are exactly the stored `note-` keys in ascending order, and the placeholder shows exactly when there is none |
| GeoNotes.NotesPage.ReorderNotes | geonotes/app.js:145-163 | the new table is `Reordered` of the old one, and nothing else on the page changes |
| GeoNotes.NotesPage.RemoveKeys | geonotes/app.js:161 | every listed key is removed and nothing else |
| GeoNotes.NotesPage.WriteEntries | geonotes/app.js:162 | every entry of `updated` is written over the table |
| GeoNotes.NotesPage.Drop | geonotes/app.js:123-132 | a drop with an empty dragged key, or onto itself, changes nothing; otherwise it reorders |
| GeoNotes.EditThenSave | geonotes/app.js:168-172 | editing a note and saving with a position overwrites that key with the new record and adds no key; with an empty input nothing is written and the edit stays in progress |

## Left out

- Rendering (`innerHTML`, card elements, drag CSS classes, the button label) is left out, along with the inline `onclick` escaping at app.js:109. They are presentation only.
- The Notification, Clipboard and speech-recognition APIs, `showToast` and its timer are left out. They are platform calls. The save outcome datatype records which toast a save would show.
- The DOM is not modelled, so the drop handler's call to `loadNotes()` afterwards is not modelled either. `LoadNotes` models what that call selects.
- Coordinates are kept as opaque reals. `toFixed(5)` and `toLocaleString` are display formatting.
- `JSON.stringify` and `JSON.parse` are treated as identity. The table holds `Note` values, so a non-note entry with some other string value is modelled as a `Note` that the model only carries along.
- GeoNotes.NotesPage.Save: applies the position callback at once. In the page, the callback runs later and reads `editingKey` and `localStorage` as they are at that time, while title and content are fixed at the click. Interleavings with other handlers are not modelled.
- GeoNotes.NotesPage.Save: `localStorage.setItem` is assumed not to throw. In the page, a full or refused storage raises `QuotaExceededError` or `SecurityError` at app.js:38. The reset at app.js:53-55 is then skipped, so the note is not written and the inputs and `editingKey` stay as they were. The model's position branch always writes and clears them.
- GeoNotes.NotesPage.ReorderNotes: `removeItem` and `setItem` are assumed not to throw. In the page, every listed key is removed (app.js:161) before any new entry is written (app.js:162). A throwing `setItem` would leave the store without some or all of its notes. The model always reaches the full `Reordered` table and does not capture that partial reorder. The same holds for `RemoveKeys`, `WriteEntries` and `Drop`.
- GeoNotes.NotesPage.Save: the notification calls at app.js:40-50 are assumed not to throw. In the page they run after the write at app.js:38 and before the reset at app.js:53-55. A `new Notification(...)` that throws (some mobile browsers refuse the constructor) or a `requestPermission()` that returns no promise therefore leaves the note written but the inputs and `editingKey` uncleared, and skips `loadNotes()`. A later save would then overwrite the edited note again. The model's position branch always clears the form and the marker, and `GeoNotes.EditThenSave` inherits that.
- GeoNotes.NotesPage.Save: `now` and `timestamp` are independent parameters. The model does not relate `Date.now()` to `new Date().toISOString()`.
- GeoNotes.NotesPage.EditNote: for a missing key the page throws in `JSON.parse(null).title`. The model treats that as changing nothing and does not model the exception.
- Strings throughout the model are sequences of Unicode scalar values, not UTF-16 code units. Lone surrogates, which JavaScript strings may hold, cannot be represented. Lengths count characters rather than code units: `|CopyHeader|` is 2 where JavaScript's `.length` is 3.
- StringOrder.Less: compares scalar values, as a consequence of the line above. JavaScript compares code units. The two orders differ only between characters above U+FFFF and characters from U+E000 to U+FFFF.
- The sort algorithm the browser uses is not modelled. `Sort` is a reference sort, and `SortedUnique` shows that every correct sort gives its result.
- GeoNotes.ParseCopyText is not in the page. It exists to state what `CopyText` preserves.
- `geonotes/animations.js` is left out. It is declarative animation configuration.
- `geonotes/db.js` is left out. It wraps an external module and app.js does not use it.
