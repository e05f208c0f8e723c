/**
 * What the page derives from the rows besides the filter and the rooms
 * (src/App.jsx:95-99, 214-231): the sorted lists of distinct levels and
 * rooms offered in the drop-downs, the room filter, and the four counts of
 * the summary cards.
 *
 * The two lists are built as the source builds them: a loop adds values to
 * a `Set`, which keeps its first-insertion order and no duplicates, and
 * `Array.from(s).sort()` then orders it.  `Sort` is that default sort on
 * distinct texts; the methods are proved to return strictly increasing
 * lists holding exactly the expected values, and `SortedUnique` shows that
 * these two facts fix the list.
 */
module Views {
  import opened Text
  import opened Opt
  import opened Records
  import Filter
  import Loader
  import Rooms

  // ---------------------------------------------------------------------
  // Ordering distinct texts

  /** `xs` with `x` put in its place; a text already present is not added twice. */
  function Insert(x: string, xs: seq<string>): seq<string> {
    if xs == [] then [x]
    else if x == xs[0] then xs
    else if StrLess(x, xs[0]) then [x] + xs
    else [xs[0]] + Insert(x, xs[1..])
  }

  /** `Array.from(s).sort()` for the texts of `s`. */
  function Sort(xs: seq<string>): seq<string> {
    if xs == [] then [] else Insert(xs[0], Sort(xs[1..]))
  }

  /** No text occurs twice: the elements of a `Set`, in insertion order. */
  predicate Distinct(xs: seq<string>) {
    forall i, j :: 0 <= i < j < |xs| ==> xs[i] != xs[j]
  }

  lemma {:induction false} InsertSorted(x: string, xs: seq<string>)
    requires StrictlySorted(xs)
    ensures StrictlySorted(Insert(x, xs))
    ensures forall y :: y in Insert(x, xs) <==> y == x || y in xs
  {
    if xs == [] {
    } else if x == xs[0] {
    } else if StrLess(x, xs[0]) {
      forall j | 0 <= j < |xs| ensures StrLess(x, xs[j]) {
        if j > 0 { StrLessTransitive(x, xs[0], xs[j]); }
      }
    } else {
      StrLessTotal(x, xs[0]);
      var tail := xs[1..];
      assert StrictlySorted(tail) by {
        forall a, b | 0 <= a < b < |tail| ensures StrLess(tail[a], tail[b]) {
          assert tail[a] == xs[a + 1] && tail[b] == xs[b + 1];
        }
      }
      InsertSorted(x, tail);
      var rest := Insert(x, tail);
      forall j | 0 <= j < |rest| ensures StrLess(xs[0], rest[j]) {
        if rest[j] != x {
          assert rest[j] in rest;
          var m :| 0 <= m < |tail| && tail[m] == rest[j];
          assert tail[m] == xs[m + 1];
        }
      }
      assert xs == [xs[0]] + tail;
    }
  }

  /** The sort gives a strictly increasing list of exactly the texts it was given. */
  lemma {:induction false} SortSpec(xs: seq<string>)
    ensures StrictlySorted(Sort(xs))
    ensures forall y :: y in Sort(xs) <==> y in xs
  {
    if xs != [] {
      SortSpec(xs[1..]);
      InsertSorted(xs[0], Sort(xs[1..]));
      assert xs == [xs[0]] + xs[1..];
    }
  }

  lemma SameMembersEmpty(a: seq<string>, b: seq<string>)
    requires forall y :: y in a <==> y in b
    ensures a == [] <==> b == []
  {
    if a != [] { assert a[0] in a; }
    if b != [] { assert b[0] in b; }
  }

  /** A strictly increasing list is determined by its elements. */
  lemma {:induction false} SortedUnique(a: seq<string>, b: seq<string>)
    requires StrictlySorted(a) && StrictlySorted(b)
    requires forall y :: y in a <==> y in b
    ensures a == b
    decreases |a|
  {
    if a != [] || b != [] {
      SameMembersEmpty(a, b);
      assert a[0] in b && b[0] in a;
      if a[0] != b[0] {
        var i :| 0 <= i < |a| && a[i] == b[0];
        var j :| 0 <= j < |b| && b[j] == a[0];
        assert StrLess(a[0], a[i]) && StrLess(b[0], b[j]);
        StrLessTransitive(a[0], b[0], a[0]);
        StrLessIrreflexive(a[0]);
      }
      var ta, tb := a[1..], b[1..];
      assert a == [a[0]] + ta && b == [b[0]] + tb;
      forall y ensures y in ta <==> y in tb {
        if y in ta {
          var i :| 0 <= i < |ta| && ta[i] == y;
          assert StrLess(a[0], a[i + 1]);
          StrLessIrreflexive(y);
          assert y in b && y != b[0];
        }
        if y in tb {
          var i :| 0 <= i < |tb| && tb[i] == y;
          assert StrLess(b[0], b[i + 1]);
          StrLessIrreflexive(y);
          assert y in a && y != a[0];
        }
      }
      assert StrictlySorted(ta) by {
        forall p, q | 0 <= p < q < |ta| ensures StrLess(ta[p], ta[q]) {
          assert ta[p] == a[p + 1] && ta[q] == a[q + 1];
        }
      }
      assert StrictlySorted(tb) by {
        forall p, q | 0 <= p < q < |tb| ensures StrLess(tb[p], tb[q]) {
          assert tb[p] == b[p + 1] && tb[q] == b[q + 1];
        }
      }
      SortedUnique(ta, tb);
    }
  }

  /** The sorted list does not depend on the order in which the `Set` received its texts. */
  lemma SortOrderFree(xs: seq<string>, ys: seq<string>)
    requires forall y :: y in xs <==> y in ys
    ensures Sort(xs) == Sort(ys)
  {
    SortSpec(xs);
    SortSpec(ys);
    SortedUnique(Sort(xs), Sort(ys));
  }

  // ---------------------------------------------------------------------
  // The level list (src/App.jsx:95-99)

  /** `if (r['Level'])`: JavaScript truthiness of a field value. */
  predicate Truthy(v: Option<Value>) {
    match v
    case Some(Str(s)) => s != ""
    case Some(Num(n)) => n != 0
    case _ => false
  }

  /** Row `i` offers level `x`. */
  predicate OffersLevel(data: seq<Record>, i: int, x: string) {
    0 <= i < |data| && Truthy(Get(data[i], LevelKey)) && JsString(Get(data[i], LevelKey)) == x
  }

  /** `allLevels`: the distinct truthy levels of the loaded data, in sort order. */
  method AllLevels(data: seq<Record>) returns (levels: seq<string>)
    ensures StrictlySorted(levels)
    ensures forall x :: x in levels <==> exists i :: OffersLevel(data, i, x)
  {
    var s: seq<string> := [];
    for i := 0 to |data|
      invariant Distinct(s)
      invariant forall x :: x in s <==> exists j :: j < i && OffersLevel(data, j, x)
    {
      var v := Get(data[i], LevelKey);
      if Truthy(v) {
        var x := JsString(v);
        assert OffersLevel(data, i, x);
        if x !in s {
          s := s + [x];
        }
      }
    }
    levels := Sort(s);
    SortSpec(s);
  }

  // ---------------------------------------------------------------------
  // The room list (src/App.jsx:214-221) and the room filter (223-226)

  /** `String(r['Ruang'] ?? '').trim()`. */
  function RoomName(r: Record): string {
    Trim(TextOf(Get(r, RoomKey)))
  }

  /** Row `i` carries the room name `x`. */
  predicate NamesRoom(rows: seq<Record>, i: int, x: string) {
    0 <= i < |rows| && RoomName(rows[i]) == x && x != ""
  }

  /** `allRooms`: the distinct non-empty room names of the rows, in sort order. */
  method AllRooms(rows: seq<Record>) returns (rooms: seq<string>)
    ensures StrictlySorted(rooms)
    ensures forall x :: x in rooms <==> exists i :: NamesRoom(rows, i, x)
  {
    var s: seq<string> := [];
    for i := 0 to |rows|
      invariant Distinct(s)
      invariant forall x :: x in s <==> exists j :: j < i && NamesRoom(rows, j, x)
    {
      var name := Trim(TextOf(Get(rows[i], RoomKey)));
      NamesStep(rows, i, s);
      if name != "" {
        if name !in s {
          s := s + [name];
        }
      }
    }
    rooms := Sort(s);
    SortSpec(s);
  }

  /** One round of the `allRooms` loop: the `Set` gains row `i`'s room name, if it has one. */
  lemma NamesStep(rows: seq<Record>, i: nat, s: seq<string>)
    requires i < |rows|
    requires Distinct(s)
    requires forall x :: x in s <==> exists j :: j < i && NamesRoom(rows, j, x)
    ensures var name := RoomName(rows[i]);
      var s' := if name != "" && name !in s then s + [name] else s;
      Distinct(s') && forall x :: x in s' <==> exists j :: j < i + 1 && NamesRoom(rows, j, x)
  {
    var name := RoomName(rows[i]);
    var s' := if name != "" && name !in s then s + [name] else s;
    if name != "" && name !in s {
      DistinctAppend(s, name);
    }
    forall x ensures x in s' <==> exists j :: j < i + 1 && NamesRoom(rows, j, x) {
      if x in s' {
        if x in s {
          var j :| j < i && NamesRoom(rows, j, x);
          assert j < i + 1;
        } else {
          assert NamesRoom(rows, i, x);
        }
      }
      if exists j :: j < i + 1 && NamesRoom(rows, j, x) {
        var j :| j < i + 1 && NamesRoom(rows, j, x);
        if j == i {
          assert x == name && x != "";
        }
      }
    }
  }

  /** Adding a value the list lacks keeps it free of duplicates. */
  lemma DistinctAppend(s: seq<string>, x: string)
    requires Distinct(s) && x !in s
    ensures Distinct(s + [x])
  {
  }

  /** `String(r['Ruang'] ?? '') === ruang`: the untrimmed room text is the chosen one. */
  predicate InRoom(r: Record, ruang: string) {
    TextOf(Get(r, RoomKey)) == ruang
  }

  /** The rows in room `ruang`, in order. */
  function KeepRoom(rows: seq<Record>, ruang: string): seq<Record> {
    if rows == [] then []
    else KeepRoom(rows[..|rows| - 1], ruang) + (if InRoom(rows[|rows| - 1], ruang) then [rows[|rows| - 1]] else [])
  }

  /** `filteredFinal`: every row when no room is chosen, otherwise the rows of that room. */
  function ByRoom(rows: seq<Record>, ruang: string): seq<Record> {
    if ruang == "" then rows else KeepRoom(rows, ruang)
  }

  /** A row is kept exactly when it is in the room, and every kept row comes from the input. */
  lemma {:induction false} KeepRoomMembers(rows: seq<Record>, ruang: string)
    ensures |KeepRoom(rows, ruang)| <= |rows|
    ensures forall r :: r in KeepRoom(rows, ruang) <==> r in rows && InRoom(r, ruang)
  {
    if rows != [] {
      var front := rows[..|rows| - 1];
      KeepRoomMembers(front, ruang);
      assert rows == front + [rows[|rows| - 1]];
    }
  }

  /** The room filter keeps the input order: it distributes over concatenation. */
  lemma {:induction false} KeepRoomAppend(a: seq<Record>, b: seq<Record>, ruang: string)
    ensures KeepRoom(a + b, ruang) == KeepRoom(a, ruang) + KeepRoom(b, ruang)
    decreases |b|
  {
    if b == [] {
      assert a + b == a;
    } else {
      var b' := b[..|b| - 1];
      assert (a + b)[..|a + b| - 1] == a + b';
      KeepRoomAppend(a, b', ruang);
    }
  }

  /** The number of rows in room `ruang`. */
  function CountInRoom(rows: seq<Record>, ruang: string): nat {
    if rows == [] then 0
    else CountInRoom(rows[..|rows| - 1], ruang) + (if InRoom(rows[|rows| - 1], ruang) then 1 else 0)
  }

  /** The room filter keeps every row of the room, and only those: one output row per matching input row. */
  lemma {:induction false} ByRoomCount(rows: seq<Record>, ruang: string)
    requires ruang != ""
    ensures |ByRoom(rows, ruang)| == CountInRoom(rows, ruang)
    ensures forall r :: r in ByRoom(rows, ruang) <==> r in rows && InRoom(r, ruang)
  {
    KeepRoomMembers(rows, ruang);
    KeepRoomLength(rows, ruang);
  }

  lemma {:induction false} KeepRoomLength(rows: seq<Record>, ruang: string)
    ensures |KeepRoom(rows, ruang)| == CountInRoom(rows, ruang)
  {
    if rows != [] {
      KeepRoomLength(rows[..|rows| - 1], ruang);
    }
  }

  /** A non-blank text without whitespace at either end is its own trim. */
  lemma TrimSolid(s: string)
    requires s != [] && !IsSpace(s[0]) && !IsSpace(s[|s| - 1])
    ensures Trim(s) == s
  {
  }

  /** The names of the room table are trimmed. */
  lemma RoomsForTrimmed(subject: string, level: string, j: nat)
    requires j < |Rooms.RoomsFor(subject, level)|
    ensures Trim(Rooms.RoomsFor(subject, level)[j]) == Rooms.RoomsFor(subject, level)[j]
  {
    var room := Rooms.RoomsFor(subject, level)[j];
    Rooms.RoomsForShape(subject, level);
    TrimSolid(room);
  }

  /**
   * Every room offered after room assignment is a room of the table for the
   * subject and level of some row of the assigned data.
   */
  lemma AssignedRoomsListed(data: seq<Record>, x: string, i: nat)
    requires NamesRoom(Rooms.Assigned(data), i, x)
    ensures x in Rooms.RoomsFor(Rooms.GroupKey(data[i]).0, Rooms.GroupKey(data[i]).1)
  {
    var ks := Rooms.GroupKeys(data);
    Rooms.AssignedFields(data, i, RoomKey);
    Rooms.GroupKeysAt(data, i);
    var room := Rooms.RoomOf(ks, i);
    Rooms.RoomIsListed(ks, i);
    if room != "" {
      var j :| 0 <= j < |Rooms.RoomsFor(ks[i].0, ks[i].1)| && Rooms.RoomsFor(ks[i].0, ks[i].1)[j] == room;
      RoomsForTrimmed(ks[i].0, ks[i].1, j);
    }
  }

  // ---------------------------------------------------------------------
  // The summary counts (src/App.jsx:228-231)

  /** `String(r['Bidang Kompetisi'] ?? '')`, untrimmed. */
  function FieldText(r: Record): string {
    TextOf(Get(r, FieldKey))
  }

  predicate IsMatematika(r: Record) { Trim(FieldText(r)) == Filter.Matematika }

  predicate IsSains(r: Record) { Trim(FieldText(r)) == Filter.Sains }

  /** `totalKeduanya` tests the untrimmed field. */
  predicate StartsDual(r: Record) { Filter.DualMarker <= FieldText(r) }

  /** The four counts of the summary cards. */
  datatype Summary = Summary(total: nat, mat: nat, sains: nat, both: nat)

  function Tally(data: seq<Record>): Summary {
    if data == [] then Summary(0, 0, 0, 0)
    else
      var s := Tally(data[..|data| - 1]);
      var r := data[|data| - 1];
      Summary(s.total + 1,
              s.mat + (if IsMatematika(r) then 1 else 0),
              s.sains + (if IsSains(r) then 1 else 0),
              s.both + (if StartsDual(r) then 1 else 0))
  }

  /** A text starting with the dual marker trims to neither subject name. */
  lemma OneCategory(r: Record)
    ensures !(IsMatematika(r) && IsSains(r))
    ensures StartsDual(r) ==> !IsMatematika(r) && !IsSains(r)
  {
    var t := FieldText(r);
    if StartsDual(r) {
      assert t[0] == 'M' && t[1] == 'e';
      TrimStartFacts(t);
      TrimEndFacts(TrimStart(t));
      assert TrimStart(t) == t;
      assert Trim(t) <= t;
      if Trim(t) != [] && |Trim(t)| >= 2 {
        assert Trim(t)[1] == 'e';
      }
    }
  }

  /** The total is the number of rows, and no row is counted under two headings. */
  lemma {:induction false} TallyBound(data: seq<Record>)
    ensures Tally(data).total == |data|
    ensures Tally(data).mat + Tally(data).sains + Tally(data).both <= Tally(data).total
  {
    if data != [] {
      TallyBound(data[..|data| - 1]);
      OneCategory(data[|data| - 1]);
    }
  }

  /** Loaded fields are trimmed, so the untrimmed dual test agrees with the filter's trimmed one. */
  lemma LoadedDual(r: Record)
    ensures StartsDual(Loader.Loaded(r)) <==> Filter.IsDual(Loader.Loaded(r))
  {
    Loader.LoadedFields(r, FieldKey);
    var v := Get(r, FieldKey);
    match v
    case Some(Str(s)) => TrimIdempotent(s);
    case Some(Num(n)) => DecimalTrimmed(n);
    case _ =>
  }

  /** On the loaded data, the dual-subject count is the number of extra rows the unfiltered view shows. */
  lemma {:induction false} BothCountsExtraRows(data: seq<Record>)
    ensures |Filter.FilterSpec(Loader.Load(data), Filter.NoCriteria)| == Tally(Loader.Load(data)).total + Tally(Loader.Load(data)).both
  {
    var loaded := Loader.Load(data);
    Filter.NoCriteriaLength(loaded);
    TallyBound(loaded);
    DualCounts(data, |data|);
    assert loaded[..|data|] == loaded;
  }

  lemma {:induction false} DualCounts(data: seq<Record>, n: nat)
    requires n <= |data|
    ensures Filter.CountDual(Loader.Load(data)[..n]) == Tally(Loader.Load(data)[..n]).both
  {
    var loaded := Loader.Load(data);
    if n > 0 {
      DualCounts(data, n - 1);
      assert loaded[..n][..n - 1] == loaded[..n - 1];
      LoadedDual(data[n - 1]);
    }
  }
}
