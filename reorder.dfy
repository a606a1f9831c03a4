/** What `reorderNotes` (app.js) does to the store, as a function of the store
    before it, and the properties of that result: the note values are moved, not
    changed; entries outside the `note-` namespace are untouched; every note is
    re-keyed `note-{position}-{instant}`; and the page shows the new order only
    while there are at most ten notes. */
module Reorder {
  import opened StringOrder
  import opened NoteKeys
  import opened Notes

  /** `keys.map(k => localStorage.getItem(k))`: the values stored under `keys`. */
  function ValuesAt(store: map<string, Note>, keys: seq<string>): (r: seq<Note>)
    requires forall k :: k in keys ==> k in store
    ensures |r| == |keys|
    ensures forall i :: 0 <= i < |keys| ==> r[i] == store[keys[i]]
  {
    seq(|keys|, i requires 0 <= i < |keys| => store[keys[i]])
  }

  /** The keys reorderNotes writes for `n` notes, position by position; `stamp(i)`
      is the instant `Date.now()` returns while position `i` is keyed. No two
      positions share a key, whatever the instants. */
  function ReorderKeys(n: nat, stamp: nat -> nat): (r: seq<string>)
    ensures |r| == n
    ensures forall i :: 0 <= i < n ==> r[i] == ReorderKey(i, stamp(i))
    ensures forall k :: k in r ==> IsNoteKey(k)
    ensures Distinct(r)
  {
    if n == 0 then []
    else
      var prev := ReorderKeys(n - 1, stamp);
      var key := ReorderKey(n - 1, stamp(n - 1));
      ReorderKeyIsNew(n - 1, stamp);
      assert key !in prev;
      DistinctSnoc(prev, key);
      prev + [key]
  }

  /** The key of position `n` is none of the keys of the positions before it. */
  lemma ReorderKeyIsNew(n: nat, stamp: nat -> nat)
    ensures forall i :: 0 <= i < n ==> ReorderKey(i, stamp(i)) != ReorderKey(n, stamp(n))
  {
    forall i | 0 <= i < n
      ensures ReorderKey(i, stamp(i)) != ReorderKey(n, stamp(n))
    {
      if ReorderKey(i, stamp(i)) == ReorderKey(n, stamp(n)) {
        ReorderKeyInjective(i, stamp(i), n, stamp(n));
      }
    }
  }

  /** The `updated` object reorderNotes fills: `values[i]` under `keys[i]`. */
  function Rekeyed(keys: seq<string>, values: seq<Note>): (r: map<string, Note>)
    requires |keys| == |values| && Distinct(keys)
    ensures forall k :: k in r <==> k in keys
    ensures forall i :: 0 <= i < |keys| ==> r[keys[i]] == values[i]
  {
    if keys == [] then map[]
    else
      var n := |keys| - 1;
      DistinctPrefix(keys, n);
      var r := Rekeyed(keys[..n], values[..n]);
      assert forall i :: 0 <= i < n ==> keys[..n][i] == keys[i] && values[..n][i] == values[i];
      RekeyedStep(keys, values, r);
      r[keys[n] := values[n]]
  }

  /** Adding the entry of the last key to the map of the earlier ones. */
  lemma RekeyedStep(keys: seq<string>, values: seq<Note>, prev: map<string, Note>)
    requires |keys| == |values| > 0 && Distinct(keys)
    requires forall k :: k in prev <==> k in keys[..|keys| - 1]
    requires forall i :: 0 <= i < |keys| - 1 ==> keys[i] in prev && prev[keys[i]] == values[i]
    ensures var n := |keys| - 1;
      var r := prev[keys[n] := values[n]];
      && (forall k :: k in r <==> k in keys)
      && (forall i :: 0 <= i < |keys| ==> r[keys[i]] == values[i])
  {
    var n := |keys| - 1;
    var r := prev[keys[n] := values[n]];
    assert keys == keys[..n] + [keys[n]];
    forall i | 0 <= i < n
      ensures r[keys[i]] == values[i]
    {
      assert keys[i] != keys[n];
    }
  }

  /** The store after reorderNotes, from the key list `keys` it computed. */
  function ReorderedFrom(store: map<string, Note>, keys: seq<string>, dragged: string, target: string, stamp: nat -> nat): map<string, Note>
    requires forall k :: k in keys ==> k in store
  {
    var from := IndexOf(keys, dragged);
    var to := IndexOf(keys, target);
    if from == -1 || to == -1 then store
    else (store - Elements(keys)) + Rekeyed(ReorderKeys(|keys|, stamp), ValuesAt(store, Move(keys, from, to)))
  }

  /** The store after `reorderNotes(dragged, target)`. */
  ghost function Reordered(store: map<string, Note>, dragged: string, target: string, stamp: nat -> nat): map<string, Note>
  {
    ReorderedFrom(store, SortedNoteKeys(store.Keys), dragged, target, stamp)
  }

  /** The result when both keys are listed. */
  lemma ReorderedFromListed(store: map<string, Note>, keys: seq<string>, dragged: string, target: string, stamp: nat -> nat)
    requires forall k :: k in keys ==> k in store
    requires dragged in keys && target in keys
    ensures var from := IndexOf(keys, dragged);
      var to := IndexOf(keys, target);
      ReorderedFrom(store, keys, dragged, target, stamp)
        == (store - Elements(keys)) + Rekeyed(ReorderKeys(|keys|, stamp), ValuesAt(store, Move(keys, from, to)))
  {
  }

  /** A key that is not a listed note leaves the store as it was. */
  lemma {:induction false} ReorderIgnoresUnlistedKeys(store: map<string, Note>, keys: seq<string>, dragged: string, target: string, stamp: nat -> nat)
    requires ListsNoteKeys(store.Keys, keys)
    requires !(dragged in store && IsNoteKey(dragged) && target in store && IsNoteKey(target))
    ensures ReorderedFrom(store, keys, dragged, target, stamp) == store
  {
  }

  /** Entries whose keys do not start with `note-` are neither removed, added nor
      changed. */
  lemma {:induction false} ReorderKeepsOtherEntries(store: map<string, Note>, keys: seq<string>, dragged: string, target: string, stamp: nat -> nat)
    requires ListsNoteKeys(store.Keys, keys)
    ensures var r := ReorderedFrom(store, keys, dragged, target, stamp);
      forall k :: !IsNoteKey(k) ==> (k in r <==> k in store) && (k in r ==> r[k] == store[k])
  {
    var from := IndexOf(keys, dragged);
    var to := IndexOf(keys, target);
    if from != -1 && to != -1 {
      var newKeys := ReorderKeys(|keys|, stamp);
      var rk := Rekeyed(newKeys, ValuesAt(store, Move(keys, from, to)));
      var r := ReorderedFrom(store, keys, dragged, target, stamp);
      ReorderedFromListed(store, keys, dragged, target, stamp);
      forall k | !IsNoteKey(k)
        ensures (k in r <==> k in store) && (k in r ==> r[k] == store[k])
      {
        assert k !in newKeys && k !in keys;
      }
    }
  }

  /** After a reorder the note keys are exactly the keys of positions 0 to n-1,
      and there are as many of them as there were notes. */
  lemma {:induction false} ReorderRekeysNotes(store: map<string, Note>, keys: seq<string>, dragged: string, target: string, stamp: nat -> nat)
    requires ListsNoteKeys(store.Keys, keys)
    requires dragged in keys && target in keys
    ensures var r := ReorderedFrom(store, keys, dragged, target, stamp);
      && (forall k :: k in r && IsNoteKey(k) <==> k in ReorderKeys(|keys|, stamp))
      && |NoteKeysOf(r.Keys)| == |keys|
  {
    var n := |keys|;
    var newKeys := ReorderKeys(n, stamp);
    var r := ReorderedFrom(store, keys, dragged, target, stamp);
    ReorderedFromListed(store, keys, dragged, target, stamp);
    forall k
      ensures k in r && IsNoteKey(k) <==> k in newKeys
    {
      if IsNoteKey(k) && k in store {
        assert k in keys;
      }
    }
    NoteKeysOfMembers(r, newKeys);
    DistinctCardinality(newKeys);
  }

  /** The note keys of a map whose note keys are exactly those listed in `s`. */
  lemma {:induction false} NoteKeysOfMembers(r: map<string, Note>, s: seq<string>)
    requires forall k :: k in r && IsNoteKey(k) <==> k in s
    ensures NoteKeysOf(r.Keys) == Elements(s)
  {
  }

  /** Reading a moved key list is moving the values read. */
  lemma {:induction false} ValuesAtMove(store: map<string, Note>, keys: seq<string>, from: nat, to: nat)
    requires forall k :: k in keys ==> k in store
    requires from < |keys| && to < |keys|
    ensures ValuesAt(store, Move(keys, from, to)) == Move(ValuesAt(store, keys), from, to)
  {
    var rest := RemoveAt(keys, from);
    ValuesAtRemoveAt(store, keys, from);
    ValuesAtInsertAt(store, rest, to, keys[from]);
    assert Move(keys, from, to) == InsertAt(rest, to, keys[from]);
    var vs := ValuesAt(store, keys);
    assert Move(vs, from, to) == InsertAt(RemoveAt(vs, from), to, vs[from]);
  }

  lemma ValuesAtRemoveAt(store: map<string, Note>, keys: seq<string>, i: nat)
    requires forall k :: k in keys ==> k in store
    requires i < |keys|
    ensures forall k :: k in RemoveAt(keys, i) ==> k in store
    ensures ValuesAt(store, RemoveAt(keys, i)) == RemoveAt(ValuesAt(store, keys), i)
  {
    var a := ValuesAt(store, RemoveAt(keys, i));
    var b := RemoveAt(ValuesAt(store, keys), i);
    assert |a| == |b|;
    forall j | 0 <= j < |a|
      ensures a[j] == b[j]
    {
    }
  }

  lemma ValuesAtInsertAt(store: map<string, Note>, keys: seq<string>, i: nat, k: string)
    requires forall x :: x in keys ==> x in store
    requires k in store && i <= |keys|
    ensures forall x :: x in InsertAt(keys, i, k) ==> x in store
    ensures ValuesAt(store, InsertAt(keys, i, k)) == InsertAt(ValuesAt(store, keys), i, store[k])
  {
    var a := ValuesAt(store, InsertAt(keys, i, k));
    var b := InsertAt(ValuesAt(store, keys), i, store[k]);
    assert |a| == |b|;
    forall j | 0 <= j < |a|
      ensures a[j] == b[j]
    {
    }
  }

  /** The values read along the new keys are the listed values with the dragged
      note moved to the target's position: the dragged note is now at the target
      position, the other notes keep their relative order, and no value is lost
      or duplicated. */
  lemma {:induction false} ReorderMovesDraggedNote(store: map<string, Note>, keys: seq<string>, dragged: string, target: string, stamp: nat -> nat)
    requires ListsNoteKeys(store.Keys, keys)
    requires dragged in keys && target in keys
    ensures var from := IndexOf(keys, dragged);
      var to := IndexOf(keys, target);
      var r := ReorderedFrom(store, keys, dragged, target, stamp);
      var newKeys := ReorderKeys(|keys|, stamp);
      && (forall k :: k in newKeys ==> k in r)
      && ValuesAt(r, newKeys) == Move(ValuesAt(store, keys), from, to)
      && r[ReorderKey(to, stamp(to))] == store[dragged]
      && RemoveAt(ValuesAt(r, newKeys), to) == RemoveAt(ValuesAt(store, keys), from)
      && multiset(ValuesAt(r, newKeys)) == multiset(ValuesAt(store, keys))
  {
    var from := IndexOf(keys, dragged);
    var to := IndexOf(keys, target);
    var listed := ValuesAt(store, keys);
    var moved := ValuesAt(store, Move(keys, from, to));
    var newKeys := ReorderKeys(|keys|, stamp);
    var r := ReorderedFrom(store, keys, dragged, target, stamp);
    ReorderedFromListed(store, keys, dragged, target, stamp);
    ReadBackRekeyed(store - Elements(keys), newKeys, moved);
    ValuesAtMove(store, keys, from, to);
    var got := ValuesAt(r, newKeys);
    assert got == Move(listed, from, to);
    assert got[to] == r[newKeys[to]];
    assert listed[from] == store[dragged];
  }

  /** Whatever else a map holds, reading `keys` from `base + Rekeyed(keys,
      values)` gives back `values`. */
  lemma ReadBackRekeyed(base: map<string, Note>, keys: seq<string>, values: seq<Note>)
    requires |keys| == |values| && Distinct(keys)
    ensures var m := base + Rekeyed(keys, values);
      (forall k :: k in keys ==> k in m) && ValuesAt(m, keys) == values
  {
    var m := base + Rekeyed(keys, values);
    var got := ValuesAt(m, keys);
    assert got == values;
  }

  /** With at most ten notes, the page lists the notes in the order the drop
      produced. */
  lemma {:induction false} ReorderShownUpToTen(store: map<string, Note>, keys: seq<string>, dragged: string, target: string, stamp: nat -> nat)
    requires ListsNoteKeys(store.Keys, keys)
    requires dragged in keys && target in keys
    requires |keys| <= 10
    ensures var r := ReorderedFrom(store, keys, dragged, target, stamp);
      ListsNoteKeys(r.Keys, ReorderKeys(|keys|, stamp))
  {
    var n := |keys|;
    var newKeys := ReorderKeys(n, stamp);
    forall i, j | 0 <= i < j < n
      ensures Less(newKeys[i], newKeys[j])
    {
      ReorderKeyOrderBelowTen(i, stamp(i), j, stamp(j));
    }
    ReorderRekeysNotes(store, keys, dragged, target, stamp);
  }

  /** With eleven notes or more, the order the page lists after a reorder is not
      the order the drop produced: position 10's key sorts before position 2's. */
  lemma {:induction false} ReorderNotShownFromEleven(store: map<string, Note>, keys: seq<string>, dragged: string, target: string, stamp: nat -> nat)
    requires ListsNoteKeys(store.Keys, keys)
    requires dragged in keys && target in keys
    requires |keys| >= 11
    ensures var r := ReorderedFrom(store, keys, dragged, target, stamp);
      !ListsNoteKeys(r.Keys, ReorderKeys(|keys|, stamp))
  {
    var newKeys := ReorderKeys(|keys|, stamp);
    ReorderKeyTenBeforeTwo(stamp(10), stamp(2));
    LessAsymmetric(newKeys[10], newKeys[2]);
  }

  /** Keying one more value adds exactly its entry. */
  lemma RekeyedSnoc(keys: seq<string>, values: seq<Note>, k: string, v: Note)
    requires |keys| == |values| && Distinct(keys + [k])
    ensures Distinct(keys)
    ensures Rekeyed(keys + [k], values + [v]) == Rekeyed(keys, values)[k := v]
  {
    DistinctPrefix(keys + [k], |keys|);
    assert (keys + [k])[..|keys|] == keys;
    assert (values + [v])[..|values|] == values;
  }

  lemma ValuesAtSnoc(store: map<string, Note>, keys: seq<string>, k: string)
    requires forall x :: x in keys ==> x in store
    requires k in store
    ensures ValuesAt(store, keys + [k]) == ValuesAt(store, keys) + [store[k]]
  {
  }

  lemma RemoveOneMore(m: map<string, Note>, s: seq<string>, x: string)
    ensures (m - Elements(s)) - {x} == m - Elements(s + [x])
  {
    assert Elements(s + [x]) == Elements(s) + {x};
  }

  lemma UnionUpdate(a: map<string, Note>, b: map<string, Note>, k: string, v: Note)
    ensures (a + b)[k := v] == a + b[k := v]
  {
  }

  lemma RemoveNone(m: map<string, Note>, s: seq<string>)
    ensures m - Elements(s[..0]) == m
  {
    assert Elements(s[..0]) == {};
  }
}
