/** The note page of app.js: `localStorage`, the edit marker `editingKey` and the
    two form inputs, with the handlers that change them (save, edit, delete,
    drop/reorder), the key selection `loadNotes` renders, and the text the copy
    button puts on the clipboard. */
module GeoNotes {
  import opened StringOrder
  import opened Text
  import opened NoteKeys
  import opened Notes
  import opened Reorder

  /** How a click on the save button ends; each case is the toast it shows. */
  datatype SaveOutcome =
    | MissingField                                // a trimmed input is empty
    | NoGeolocation                               // `navigator.geolocation` is absent
    | LocationFailed(code: GeolocationErrorCode)  // the error callback ran
    | Saved(key: string)                          // the note was written under `key`

  /** `editingKey || `note-${Date.now()}``: the key a save writes. The empty
      string is falsy, so an empty marker mints a new key like `null` does. A
      save never writes under the empty key, and it stays in the listed `note-`
      namespace whenever the marker is absent, empty or itself a note key. */
  function SaveKey(editingKey: Option<string>, now: nat): (k: string)
    ensures k != ""
    ensures Some(k) == editingKey || k == NewNoteKey(now)
    ensures (editingKey.None? || editingKey == Some("") || IsNoteKey(editingKey.value)) ==> IsNoteKey(k)
  {
    if editingKey.Some? && editingKey.value != "" then editingKey.value else NewNoteKey(now)
  }

  /** What the key choice means for the list: with a marker that is absent,
      empty or a note key, the saved note is among the keys the next loadNotes
      renders, and the list grows by one exactly when that key was not stored
      before (a new note) and keeps its length otherwise (an edit). */
  lemma SaveKeyListed(store: map<string, Note>, editingKey: Option<string>, now: nat, note: Note)
    requires editingKey.None? || editingKey == Some("") || IsNoteKey(editingKey.value)
    ensures var key := SaveKey(editingKey, now);
      var after := SortedNoteKeys(store[key := note].Keys);
      && key in after
      && |after| == |SortedNoteKeys(store.Keys)| + (if key in store then 0 else 1)
  {
    var key := SaveKey(editingKey, now);
    var m := store[key := note];
    assert IsNoteKey(key) && m.Keys == store.Keys + {key};
    var before, after := NoteKeysOf(store.Keys), NoteKeysOf(m.Keys);
    assert after == before + {key};
    if key in store {
      assert after == before;
    } else {
      assert key !in before;
      assert |after| == |before| + 1;
    }
    ListedCount(store.Keys);
    ListedCount(m.Keys);
    assert key in SortedNoteKeys(m.Keys);
  }

  /** The drop handler's guard: `draggedKey && draggedKey !== targetKey`. */
  predicate DropAccepted(draggedKey: string, targetKey: string)
  {
    draggedKey != "" && draggedKey != targetKey
  }

  const CopyHeader: string := "\U{1F4CC} "
  const BlankLine: string := "\n\n"

  /** `📌 ${title}\n\n${content}`: what copyNoteContent writes to the clipboard. */
  function CopyText(title: string, content: string): (r: string)
    ensures |r| == |CopyHeader| + |title| + |BlankLine| + |content|
  {
    CopyHeader + title + BlankLine + content
  }

  /** Position of the first blank line (two line feeds) in `s`, or `|s|`. */
  function BlankLineAt(s: string): (i: nat)
    ensures i <= |s|
    ensures i + 2 <= |s| ==> s[i..i + 2] == BlankLine
  {
    if |s| < 2 then |s|
    else if s[..2] == BlankLine then 0
    else
      var i := BlankLineAt(s[1..]);
      if i + 2 <= |s[1..]| then
        assert s[1..][i..i + 2] == s[i + 1..i + 3];
        i + 1
      else |s|
  }

  /** Splits a copied text back into title and content. */
  function ParseCopyText(s: string): Option<(string, string)>
  {
    if |s| < |CopyHeader| || s[..|CopyHeader|] != CopyHeader then None
    else
      var rest := s[|CopyHeader|..];
      var i := BlankLineAt(rest);
      if i + 2 <= |rest| then Some((rest[..i], rest[i + 2..])) else None
  }

  lemma {:induction false} BlankLineAfterLine(title: string, content: string)
    requires '\n' !in title
    ensures BlankLineAt(title + BlankLine + content) == |title|
  {
    var s := title + BlankLine + content;
    if title != [] {
      assert s[0] == title[0];
      assert s[1..] == title[1..] + BlankLine + content;
      BlankLineAfterLine(title[1..], content);
    } else {
      assert s[..2] == BlankLine;
    }
  }

  /** A single-line title and any content are recovered from the copied text. */
  lemma CopyTextRoundTrip(title: string, content: string)
    requires '\n' !in title
    ensures ParseCopyText(CopyText(title, content)) == Some((title, content))
  {
    var s := CopyText(title, content);
    assert s[..|CopyHeader|] == CopyHeader;
    var rest := s[|CopyHeader|..];
    assert rest == title + BlankLine + content;
    BlankLineAfterLine(title, content);
    assert rest[..|title|] == title;
    assert rest[|title| + 2..] == content;
  }

  /** The first loop of reorderNotes: `updated` gets the value at position `i`
      of `reordered` under `note-{i}-{Date.now()}`; `order` is the order its keys
      were added in. */
  method FillUpdated(store: map<string, Note>, reordered: seq<string>, stamp: nat -> nat)
    returns (updated: map<string, Note>, order: seq<string>)
    requires forall k :: k in reordered ==> k in store
    ensures order == ReorderKeys(|reordered|, stamp)
    ensures updated == Rekeyed(order, ValuesAt(store, reordered))
  {
    updated, order := map[], [];
    var i := 0;
    while i < |reordered|
      invariant 0 <= i <= |reordered|
      invariant order == ReorderKeys(i, stamp)
      invariant updated == Rekeyed(order, ValuesAt(store, reordered[..i]))
    {
      var key := ReorderKey(i, stamp(i));
      PrefixSnoc(reordered, i);
      ValuesAtSnoc(store, reordered[..i], reordered[i]);
      assert ReorderKeys(i + 1, stamp) == order + [key];
      RekeyedSnoc(order, ValuesAt(store, reordered[..i]), key, store[reordered[i]]);
      updated := updated[key := store[reordered[i]]];
      order := order + [key];
      i := i + 1;
    }
    PrefixWhole(reordered);
  }

  class NotesPage {
    /** `localStorage`, keyed by string. */
    var storage: map<string, Note>
    /** `editingKey`: the key of the note being edited, or `null`. */
    var editingKey: Option<string>
    /** The values of the title input and of the note textarea. */
    var titleInput: string
    var noteInput: string

    /** The page as loaded over what `localStorage` already holds. */
    constructor (stored: map<string, Note>)
      ensures storage == stored && editingKey == None
      ensures titleInput == "" && noteInput == ""
    {
      storage := stored;
      editingKey := None;
      titleInput, noteInput := "", "";
    }

    /** The click handler of the save button. `geolocation` is what the browser
        answers, `now` is `Date.now()` and `timestamp` is
        `new Date().toISOString()` in the position callback. */
    method Save(geolocation: Geolocation, now: nat, timestamp: string) returns (outcome: SaveOutcome)
      modifies this
      ensures Trim(old(titleInput)) == "" || Trim(old(noteInput)) == "" ==>
        outcome == MissingField && unchanged(this)
      ensures Trim(old(titleInput)) != "" && Trim(old(noteInput)) != "" && geolocation.Unsupported? ==>
        outcome == NoGeolocation && unchanged(this)
      ensures Trim(old(titleInput)) != "" && Trim(old(noteInput)) != "" && geolocation.PositionError? ==>
        outcome == LocationFailed(geolocation.code) && unchanged(this)
      ensures Trim(old(titleInput)) != "" && Trim(old(noteInput)) != "" && geolocation.Position? ==>
        var key := SaveKey(old(editingKey), now);
        && outcome == Saved(key)
        && storage == old(storage)[key := Note(Trim(old(titleInput)), Trim(old(noteInput)), geolocation.coords, timestamp)]
        && editingKey == None && titleInput == "" && noteInput == ""
    {
      var title := Trim(titleInput);
      var content := Trim(noteInput);
      if title == "" || content == "" {
        return MissingField;
      }
      if geolocation.Unsupported? {
        return NoGeolocation;
      }
      if geolocation.PositionError? {
        return LocationFailed(geolocation.code);
      }
      var note := Note(title, content, geolocation.coords, timestamp);
      var noteKey := SaveKey(editingKey, now);
      assert note == Note(Trim(old(titleInput)), Trim(old(noteInput)), geolocation.coords, timestamp);
      assert noteKey == SaveKey(old(editingKey), now);
      storage := storage[noteKey := note];
      titleInput, noteInput := "", "";
      editingKey := None;
      outcome := Saved(noteKey);
    }

    /** `editNote(key)`: loads the note into the form and marks it as edited.
        For a key with no entry, `JSON.parse(null).title` throws before anything
        is set. */
    method EditNote(key: string)
      modifies this`editingKey, this`titleInput, this`noteInput
      ensures key in storage ==>
        editingKey == Some(key) && titleInput == storage[key].title && noteInput == storage[key].content
      ensures key !in storage ==>
        editingKey == old(editingKey) && titleInput == old(titleInput) && noteInput == old(noteInput)
    {
      if key in storage {
        var note := storage[key];
        titleInput := note.title;
        noteInput := note.content;
        editingKey := Some(key);
      }
    }

    /** `deleteNote(noteKey)`, where `confirmed` is the answer to `confirm(...)`. */
    method DeleteNote(noteKey: string, confirmed: bool)
      modifies this`storage
      ensures storage == if confirmed then old(storage) - {noteKey} else old(storage)
      ensures noteKey !in old(storage) ==> storage == old(storage)
    {
      if confirmed {
        storage := storage - {noteKey};
      }
    }

    /** `Object.keys(localStorage).filter(k => k.startsWith("note-")).sort()`,
        where `enumeration` is `Object.keys(localStorage)`: every stored note key
        once, in an order the browser chooses. The result is the note keys in ascending
        string order, whatever that order was. */
    method NoteKeyList(enumeration: seq<string>) returns (keys: seq<string>)
      requires ListsEveryNoteKey(enumeration, storage.Keys)
      ensures ListsNoteKeys(storage.Keys, keys)
      ensures keys == SortedNoteKeys(storage.Keys)
    {
      keys := Listing(enumeration);
      ListingOfNoteEnumeration(enumeration, storage.Keys);
    }

    /** The key selection of `loadNotes`: the listed keys, the notes read under
        them, and whether the "No notes saved yet." placeholder is shown instead. */
    method LoadNotes(enumeration: seq<string>) returns (keys: seq<string>, notes: seq<Note>, placeholder: bool)
      requires ListsEveryNoteKey(enumeration, storage.Keys)
      ensures ListsNoteKeys(storage.Keys, keys)
      ensures notes == ValuesAt(storage, keys)
      ensures placeholder <==> forall k :: k in storage ==> !IsNoteKey(k)
    {
      keys := NoteKeyList(enumeration);
      placeholder := |keys| == 0;
      if placeholder {
        notes := [];
        return;
      }
      notes := ValuesAt(storage, keys);
    }

    /** `reorderNotes(draggedKey, targetKey)`. `enumeration` is what
        `Object.keys(localStorage)` returns and `stamp(i)` is the value of
        `Date.now()` while position `i` is keyed. */
    method ReorderNotes(draggedKey: string, targetKey: string, enumeration: seq<string>, stamp: nat -> nat)
      requires ListsEveryNoteKey(enumeration, storage.Keys)
      modifies this`storage
      ensures storage == Reordered(old(storage), draggedKey, targetKey, stamp)
    {
      var keys := NoteKeyList(enumeration);
      var draggedIndex := IndexOf(keys, draggedKey);
      var targetIndex := IndexOf(keys, targetKey);
      if draggedIndex == -1 || targetIndex == -1 {
        return;
      }

      var reordered := RemoveAt(keys, draggedIndex);
      reordered := InsertAt(reordered, targetIndex, keys[draggedIndex]);
      assert reordered == Move(keys, draggedIndex, targetIndex);
      var updated, order := FillUpdated(storage, reordered, stamp);
      ghost var moved := ValuesAt(storage, reordered);

      RemoveKeys(keys);
      WriteEntries(order, updated, moved);
    }

    /** The second loop of reorderNotes: `localStorage.removeItem(key)` for every
        listed key. */
    method RemoveKeys(keys: seq<string>)
      modifies this`storage
      ensures storage == old(storage) - Elements(keys)
    {
      var j := 0;
      RemoveNone(storage, keys);
      while j < |keys|
        invariant 0 <= j <= |keys|
        invariant storage == old(storage) - Elements(keys[..j])
      {
        PrefixSnoc(keys, j);
        RemoveOneMore(old(storage), keys[..j], keys[j]);
        storage := storage - {keys[j]};
        j := j + 1;
      }
      PrefixWhole(keys);
    }

    /** The third loop of reorderNotes: `localStorage.setItem(key, updated[key])`
        for the keys of `updated` in the order they were added. */
    method WriteEntries(order: seq<string>, updated: map<string, Note>, ghost values: seq<Note>)
      requires |order| == |values| && Distinct(order)
      requires updated == Rekeyed(order, values)
      modifies this`storage
      ensures storage == old(storage) + updated
    {
      var n := 0;
      while n < |order|
        invariant 0 <= n <= |order|
        invariant Distinct(order[..n])
        invariant storage == old(storage) + Rekeyed(order[..n], values[..n])
      {
        PrefixSnoc(order, n);
        PrefixSnoc(values, n);
        DistinctPrefix(order, n + 1);
        RekeyedSnoc(order[..n], values[..n], order[n], values[n]);
        UnionUpdate(old(storage), Rekeyed(order[..n], values[..n]), order[n], values[n]);
        storage := storage[order[n] := updated[order[n]]];
        n := n + 1;
      }
      PrefixWhole(order);
      PrefixWhole(values);
    }

    /** The drop handler: a drop that passes the guard reorders. */
    method Drop(draggedKey: string, targetKey: string, enumeration: seq<string>, stamp: nat -> nat)
      requires ListsEveryNoteKey(enumeration, storage.Keys)
      modifies this`storage
      ensures storage == if DropAccepted(draggedKey, targetKey)
                         then Reordered(old(storage), draggedKey, targetKey, stamp)
                         else old(storage)
    {
      if draggedKey != "" && draggedKey != targetKey {
        ReorderNotes(draggedKey, targetKey, enumeration, stamp);
      }
    }
  }

  /** Editing a listed note, changing the form and saving with a position:
      the note is overwritten under its own key and no key is added; with an
      empty input nothing is written and the edit stays in progress. */
  method EditThenSave(page: NotesPage, key: string, title: string, body: string,
                      coords: Coordinates, now: nat, timestamp: string) returns (outcome: SaveOutcome)
    requires key in page.storage && IsNoteKey(key)
    modifies page
    ensures Trim(title) != "" && Trim(body) != "" ==>
      && outcome == Saved(key)
      && page.storage == old(page.storage)[key := Note(Trim(title), Trim(body), coords, timestamp)]
      && page.storage.Keys == old(page.storage).Keys
      && page.editingKey == None
    ensures Trim(title) == "" || Trim(body) == "" ==>
      outcome == MissingField && page.storage == old(page.storage) && page.editingKey == Some(key)
  {
    page.EditNote(key);
    page.titleInput := title;
    page.noteInput := body;
    assert page.editingKey == Some(key) && page.storage == old(page.storage);
    outcome := page.Save(Position(coords), now, timestamp);
    assert old(page.storage)[key := Note(Trim(title), Trim(body), coords, timestamp)].Keys == old(page.storage).Keys;
  }
}
