/** The keys under which the page keeps its notes in `localStorage`, and the
    key list it works from: the keys that start with `note-`, in ascending string
    order (app.js, `loadNotes` and `reorderNotes`). */
module NoteKeys {
  import opened StringOrder
  import opened Text

  const NotePrefix: string := "note-"

  /** `k.startsWith("note-")` */
  predicate IsNoteKey(k: string)
  {
    |NotePrefix| <= |k| && k[..|NotePrefix|] == NotePrefix
  }

  /** The key a save mints when no edit is in progress: `note-${Date.now()}`. */
  function NewNoteKey(now: nat): (k: string)
    ensures IsNoteKey(k)
  {
    NotePrefix + Decimal(now)
  }

  /** Saves at different instants mint different keys. */
  lemma NewNoteKeyInjective(m: nat, n: nat)
    requires NewNoteKey(m) == NewNoteKey(n)
    ensures m == n
  {
    assert Decimal(m) == NewNoteKey(m)[|NotePrefix|..];
    assert Decimal(n) == NewNoteKey(n)[|NotePrefix|..];
    DecimalInjective(m, n);
  }

  /** The key reorderNotes gives the note it places at position `i`, read at
      instant `t`: `note-${i}-${Date.now()}`. */
  function ReorderKey(i: nat, t: nat): (k: string)
    ensures IsNoteKey(k)
  {
    NotePrefix + Decimal(i) + "-" + Decimal(t)
  }

  /** Position of the first `-` in `s`, or `|s|` when there is none. */
  function DashIndex(s: string): (n: nat)
    ensures n <= |s|
  {
    if s == [] || s[0] == '-' then 0 else 1 + DashIndex(s[1..])
  }

  lemma {:induction false} DashIndexAfterDigits(a: string, b: string)
    requires forall i :: 0 <= i < |a| ==> IsDigit(a[i])
    ensures DashIndex(a + "-" + b) == |a|
  {
    if a != [] {
      assert (a + "-" + b)[1..] == a[1..] + "-" + b;
      DashIndexAfterDigits(a[1..], b);
    }
  }

  /** Different positions, or different instants, give different keys: the
      position is read back up to the first `-`, the instant after it. */
  lemma ReorderKeyInjective(i: nat, t: nat, j: nat, u: nat)
    requires ReorderKey(i, t) == ReorderKey(j, u)
    ensures i == j && t == u
  {
    var rest := ReorderKey(i, t)[|NotePrefix|..];
    assert rest == Decimal(i) + "-" + Decimal(t);
    assert rest == Decimal(j) + "-" + Decimal(u);
    DashSplit(Decimal(i), Decimal(t));
    DashSplit(Decimal(j), Decimal(u));
    DecimalInjective(i, j);
    DecimalInjective(t, u);
  }

  /** A numeral, a dash and anything: the parts are read back around the dash. */
  lemma DashSplit(a: string, b: string)
    requires forall i :: 0 <= i < |a| ==> IsDigit(a[i])
    ensures var s := a + "-" + b;
      DashIndex(s) == |a| && s[..DashIndex(s)] == a && s[DashIndex(s) + 1..] == b
  {
    DashIndexAfterDigits(a, b);
    var s := a + "-" + b;
    assert s[..|a|] == a;
    assert s[|a| + 1..] == b;
  }

  /** Below ten positions, string order on reorder keys is position order,
      whatever the instants. */
  lemma ReorderKeyOrderBelowTen(i: nat, t: nat, j: nat, u: nat)
    requires i < j < 10
    ensures Less(ReorderKey(i, t), ReorderKey(j, u))
  {
    var x := [DigitChar(i)] + "-" + Decimal(t);
    var y := [DigitChar(j)] + "-" + Decimal(u);
    assert ReorderKey(i, t) == NotePrefix + x;
    assert ReorderKey(j, u) == NotePrefix + y;
    LessCommonPrefix(NotePrefix, x, y);
  }

  /** From ten positions on, string order and position order part: the key of
      position 10 sorts before the key of position 2. */
  lemma ReorderKeyTenBeforeTwo(t: nat, u: nat)
    ensures Less(ReorderKey(10, t), ReorderKey(2, u))
  {
    assert Decimal(10) == "10";
    var x := "10-" + Decimal(t);
    var y := "2-" + Decimal(u);
    assert ReorderKey(10, t) == NotePrefix + x;
    assert ReorderKey(2, u) == NotePrefix + y;
    LessCommonPrefix(NotePrefix, x, y);
  }

  /** `keys.filter(k => k.startsWith("note-"))` */
  function Filter(keys: seq<string>): (r: seq<string>)
    ensures forall k :: multiset(r)[k] == if IsNoteKey(k) then multiset(keys)[k] else 0
  {
    if keys == [] then []
    else
      assert keys == [keys[0]] + keys[1..];
      (if IsNoteKey(keys[0]) then [keys[0]] else []) + Filter(keys[1..])
  }

  /** `Object.keys(localStorage).filter(k => k.startsWith("note-")).sort()`, where
      `keys` is the order in which the store enumerated its keys. */
  function Listing(keys: seq<string>): (r: seq<string>)
    ensures Sorted(r)
    ensures forall k :: multiset(r)[k] == if IsNoteKey(k) then multiset(keys)[k] else 0
  {
    Sort(Filter(keys))
  }

  function NoteKeysOf(keys: set<string>): (r: set<string>)
    ensures forall k :: k in r <==> k in keys && IsNoteKey(k)
  {
    set k | k in keys && IsNoteKey(k)
  }

  lemma ListingOfEnumeration(all: seq<string>, keys: set<string>)
    requires multiset(all) == multiset(keys)
    ensures multiset(Listing(all)) == multiset(NoteKeysOf(keys))
  {
    var r := Listing(all);
    forall k ensures multiset(r)[k] == multiset(NoteKeysOf(keys))[k] {
    }
  }

  /** `s` is the list the page renders for a store with key set `keys`: its
      note keys, each once, in ascending string order. */
  ghost predicate ListsNoteKeys(keys: set<string>, s: seq<string>)
  {
    StrictlySorted(s) && forall k :: k in s <==> k in keys && IsNoteKey(k)
  }

  /** The note keys of a store, in the order the page renders them. */
  ghost function SortedNoteKeys(keys: set<string>): (r: seq<string>)
    ensures ListsNoteKeys(keys, r)
  {
    var all := Enumeration(keys);
    var r := Listing(all);
    ListingOfEnumeration(all, keys);
    SetEnumerationDistinct(r, NoteKeysOf(keys));
    SortedDistinctIsStrict(r);
    r
  }

  /** There are as many listed keys as the store has note keys. */
  lemma ListedCount(keys: set<string>)
    ensures |SortedNoteKeys(keys)| == |NoteKeysOf(keys)|
  {
    var s := SortedNoteKeys(keys);
    StrictlySortedIsSortedDistinct(s);
    DistinctCardinality(s);
    assert Elements(s) == NoteKeysOf(keys);
  }

  /** The rendered order does not depend on the order in which the store
      enumerates its keys. */
  lemma ListingIgnoresEnumerationOrder(all: seq<string>, keys: set<string>)
    requires multiset(all) == multiset(keys)
    ensures Listing(all) == SortedNoteKeys(keys)
  {
    var s := SortedNoteKeys(keys);
    ListingOfEnumeration(all, keys);
    StrictlySortedIsSortedDistinct(s);
    DistinctEnumeratesItsSet(s);
    assert Elements(s) == NoteKeysOf(keys);
    SortedUnique(Listing(all), s);
  }

  /** `all` lists every stored note key once and nothing else under `note-`;
      keys outside that namespace may be missing or repeated. This is what
      `Object.keys(localStorage)` promises for the keys the page cares about. */
  ghost predicate ListsEveryNoteKey(all: seq<string>, keys: set<string>)
  {
    forall k :: IsNoteKey(k) ==> multiset(all)[k] == if k in keys then 1 else 0
  }

  /** Only the note keys of an enumeration decide the rendered list. */
  lemma ListingOfNoteEnumeration(all: seq<string>, keys: set<string>)
    requires ListsEveryNoteKey(all, keys)
    ensures Listing(all) == SortedNoteKeys(keys)
  {
    var e := Enumeration(keys);
    ListingIgnoresEnumerationOrder(e, keys);
    forall k
      ensures multiset(Listing(all))[k] == multiset(Listing(e))[k]
    {
    }
    SortedUnique(Listing(all), Listing(e));
  }

  /** Being strictly ascending and holding exactly the note keys determines the
      rendered order. */
  lemma SortedNoteKeysUnique(s: seq<string>, keys: set<string>)
    requires ListsNoteKeys(keys, s)
    ensures s == SortedNoteKeys(keys)
  {
    var t := SortedNoteKeys(keys);
    StrictlySortedIsSortedDistinct(s);
    StrictlySortedIsSortedDistinct(t);
    DistinctEnumeratesItsSet(s);
    DistinctEnumeratesItsSet(t);
    assert Elements(s) == Elements(t);
    SortedUnique(s, t);
  }

  /** `s.indexOf(x)`: the first position of `x` in `s`, or -1. */
  function IndexOf(s: seq<string>, x: string): (r: int)
    ensures r == -1 <==> x !in s
    ensures r != -1 ==> 0 <= r < |s| && s[r] == x && x !in s[..r]
  {
    if s == [] then -1
    else if s[0] == x then 0
    else
      var i := IndexOf(s[1..], x);
      if i == -1 then -1
      else
        assert s[..i + 1] == [s[0]] + s[1..][..i];
        i + 1
  }

  /** `s.splice(i, 1)` on a copy: `s` without its element at `i`. */
  function RemoveAt<T>(s: seq<T>, i: nat): (r: seq<T>)
    requires i < |s|
    ensures |r| == |s| - 1
    ensures forall j :: 0 <= j < |r| ==> r[j] == if j < i then s[j] else s[j + 1]
  {
    s[..i] + s[i + 1..]
  }

  /** `s.splice(i, 0, x)` on a copy: `x` placed at position `i`. */
  function InsertAt<T>(s: seq<T>, i: nat, x: T): (r: seq<T>)
    requires i <= |s|
    ensures |r| == |s| + 1
    ensures forall j :: 0 <= j < |r| ==> r[j] == if j < i then s[j] else if j == i then x else s[j - 1]
  {
    s[..i] + [x] + s[i..]
  }

  /** The splice pair of reorderNotes: the element at `from` is taken out and
      put back at `to`; every other element keeps its relative order. */
  function Move<T(!new)>(s: seq<T>, from: nat, to: nat): (r: seq<T>)
    requires from < |s| && to < |s|
    ensures |r| == |s|
    ensures r[to] == s[from]
    ensures RemoveAt(r, to) == RemoveAt(s, from)
    ensures multiset(r) == multiset(s)
    ensures forall x :: x in r <==> x in s
  {
    var rest := RemoveAt(s, from);
    var r := InsertAt(rest, to, s[from]);
    assert RemoveAt(r, to) == rest;
    assert s == s[..from] + [s[from]] + s[from + 1..];
    assert multiset(s) == multiset(rest) + multiset{s[from]};
    assert rest == rest[..to] + rest[to..];
    assert multiset(r) == multiset(rest) + multiset{s[from]};
    assert forall x :: x in r <==> x in multiset(r);
    r
  }
  /** A prefix one longer is the prefix followed by the next element. */
  lemma PrefixSnoc<T>(s: seq<T>, i: nat)
    requires i < |s|
    ensures s[..i + 1] == s[..i] + [s[i]]
  {
  }
  lemma PrefixWhole<T>(s: seq<T>)
    ensures s[..|s|] == s
  {
  }
}
