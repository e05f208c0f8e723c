/**
 * The room assigner of src/App.jsx:137-212.
 *
 * Rows are grouped by (subject, level).  The rooms of a group come from the
 * fixed table `RoomsFor`.  A group with one room puts every row in it; a
 * group with two rooms puts the first half (rounded up) of its rows, in
 * list order, in the first room and the rest in the second; any other group
 * gets the empty room name.  Every row comes out in its original place with
 * a `Ruang` field added.
 *
 * `RoomOf` states the room of each row directly (by the row's rank in its
 * group and the group's size); the method `AssignRooms` follows the
 * source's three passes over maps and is proved to agree with it.
 */
module Rooms {
  import opened Text
  import opened Opt
  import opened Records

  /** A group: (subject, level).  The source joins the two with `|` into one string key. */
  type Key = (string, string)

  /** The subject and the level of a row, as trimmed text. */
  function GroupKey(r: Record): Key {
    (Trim(TextOf(Get(r, FieldKey))), Trim(TextOf(Get(r, LevelKey))))
  }

  /** `getRoomsFor` (src/App.jsx:151-182). */
  function RoomsFor(subject: string, level: string): seq<string> {
    if subject == "Matematika" then
      if level == "Level 1" then ["Ruang 1 Mekkah", "Ruang 2 Jeddah"]
      else if level == "Level 2" then ["Ruang 3 Riyadh", "Ruang 4 Muskat"]
      else if level == "Level 3" then ["Ruang 5 Abudhabi", "Ruang 6 Yaman"]
      else if level == "Level 4" || level == "Level 5" then ["Ruang 7 Sana'a"]
      else []
    else if subject == "Sains" then
      if level == "Level 1" then ["Ruang 4 Muskat"]
      else if level == "Level 2" then ["Ruang 5 Abudhabi"]
      else if level == "Level 3" then ["Ruang 6 Yaman", "Ruang 7 Sana'a"]
      else if level == "Level 4" then ["Ruang 8 Madinah"]
      else []
    else []
  }

  /** `Math.ceil(n / 2)`. */
  function Half(n: nat): (h: nat)
    ensures 2 * h == n || 2 * h == n + 1
  {
    (n + 1) / 2
  }

  /** The room of the row of rank `idx` in a group of `n` rows with room list `rooms`. */
  function RoomAt(rooms: seq<string>, n: nat, idx: nat): string {
    if |rooms| == 1 then rooms[0]
    else if |rooms| == 2 then (if idx < Half(n) then rooms[0] else rooms[1])
    else ""
  }

  /** The group of every row, in order. */
  function GroupKeys(data: seq<Record>): (ks: seq<Key>)
    ensures |ks| == |data|
  {
    if data == [] then [] else GroupKeys(data[..|data| - 1]) + [GroupKey(data[|data| - 1])]
  }

  lemma {:induction false} GroupKeysAt(data: seq<Record>, i: nat)
    requires i < |data|
    ensures GroupKeys(data)[i] == GroupKey(data[i])
  {
    if i < |data| - 1 {
      GroupKeysAt(data[..|data| - 1], i);
    }
  }

  /** The number of times group `k` occurs among the first `n` keys. */
  function CountOf(ks: seq<Key>, n: nat, k: Key): nat
    requires n <= |ks|
  {
    if n == 0 then 0 else CountOf(ks, n - 1, k) + (if ks[n - 1] == k then 1 else 0)
  }

  /** The rows among the first `n` whose key (in `ks`) is `k`, in order. */
  function GroupOf(data: seq<Record>, ks: seq<Key>, n: nat, k: Key): seq<Record>
    requires n <= |data| == |ks|
  {
    if n == 0 then [] else GroupOf(data, ks, n - 1, k) + (if ks[n - 1] == k then [data[n - 1]] else [])
  }

  /** The rows of group `k`, in order. */
  function Group(data: seq<Record>, k: Key): seq<Record> {
    GroupOf(data, GroupKeys(data), |data|, k)
  }

  /** The number of rows of group `k`, given the group of every row. */
  function Size(ks: seq<Key>, k: Key): nat {
    CountOf(ks, |ks|, k)
  }

  /** The position of row `i` within its group: the number of earlier rows in the same group. */
  function Rank(ks: seq<Key>, i: nat): nat
    requires i < |ks|
  {
    CountOf(ks, i, ks[i])
  }

  /** The room of row `i`, given the group of every row: it depends on nothing else. */
  function RoomOf(ks: seq<Key>, i: nat): string
    requires i < |ks|
  {
    RoomAt(RoomsFor(ks[i].0, ks[i].1), Size(ks, ks[i]), Rank(ks, i))
  }

  /** Row `i` with its room: `{ ...rec, Ruang: ruang }`. */
  function Row(data: seq<Record>, ks: seq<Key>, i: nat): Record
    requires i < |data| == |ks|
  {
    Put(data[i], RoomKey, Str(RoomOf(ks, i)))
  }

  /** The first `n` rows with their rooms, in order. */
  function AssignedPrefix(data: seq<Record>, ks: seq<Key>, n: nat): (out: seq<Record>)
    requires n <= |data| == |ks|
    ensures |out| == n
  {
    if n == 0 then [] else AssignedPrefix(data, ks, n - 1) + [Row(data, ks, n - 1)]
  }

  /** All rows with their rooms, in order. */
  function Assigned(data: seq<Record>): (out: seq<Record>)
    ensures |out| == |data|
  {
    AssignedPrefix(data, GroupKeys(data), |data|)
  }

  /** The per-group assignment map of src/App.jsx:189-195: rank to room, for every rank of the group. */
  function Assignments(rooms: seq<string>, n: nat): map<nat, string> {
    if |rooms| == 1 || |rooms| == 2 then map j: nat | j < n :: RoomAt(rooms, n, j) else map[]
  }

  /** The per-group row counters after reading the first `n` keys: one entry per group seen. */
  function Counts(ks: seq<Key>, n: nat): map<Key, nat>
    requires n <= |ks|
  {
    if n == 0 then map[]
    else
      var c := Counts(ks, n - 1);
      var k := ks[n - 1];
      c[k := (if k in c then c[k] else 0) + 1]
  }

  // ---------------------------------------------------------------------
  // Counting within groups

  /** Reading one more key advances that key's counter, starting it at 1 when it is new. */
  lemma CountsStep(ks: seq<Key>, i: nat)
    requires i < |ks|
    ensures var c := Counts(ks, i);
      Counts(ks, i + 1) == c[ks[i] := (if ks[i] in c then c[ks[i]] else 0) + 1]
  {
  }

  /** A group has as many rows as it has occurrences among the keys. */
  lemma {:induction false} GroupSize(data: seq<Record>, ks: seq<Key>, n: nat, k: Key)
    requires n <= |data| == |ks|
    ensures |GroupOf(data, ks, n, k)| == CountOf(ks, n, k)
  {
    if n > 0 {
      GroupSize(data, ks, n - 1, k);
    }
  }

  /** A prefix has no more occurrences of a group than a longer one. */
  lemma {:induction false} CountMono(ks: seq<Key>, i: nat, j: nat, k: Key)
    requires i <= j <= |ks|
    ensures CountOf(ks, i, k) <= CountOf(ks, j, k)
    decreases j
  {
    if i < j {
      CountMono(ks, i, j - 1, k);
    }
  }

  /** A row's rank is below the size of its group. */
  lemma RankBelowSize(ks: seq<Key>, i: nat)
    requires i < |ks|
    ensures Rank(ks, i) < Size(ks, ks[i])
  {
    CountMono(ks, i + 1, |ks|, ks[i]);
  }

  /** The counters hold exactly the groups seen so far, each with its number of rows. */
  lemma {:induction false} CountsSize(ks: seq<Key>, n: nat, k: Key)
    requires n <= |ks|
    ensures k in Counts(ks, n) <==> CountOf(ks, n, k) > 0
    ensures k in Counts(ks, n) ==> Counts(ks, n)[k] == CountOf(ks, n, k)
  {
    if n > 0 {
      CountsSize(ks, n - 1, k);
    }
  }

  /** The groups map after the first `n` rows, whose groups are `ks`: each group seen, with its rows so far. */
  function Groups(data: seq<Record>, ks: seq<Key>, n: nat): map<Key, seq<Record>>
    requires n <= |data| == |ks|
  {
    if n == 0 then map[]
    else
      var g := Groups(data, ks, n - 1);
      var k := ks[n - 1];
      g[k := (if k in g then g[k] else []) + [data[n - 1]]]
  }

  /** The groups map holds exactly the groups seen so far, each with its rows in order. */
  lemma {:induction false} GroupsSpec(data: seq<Record>, ks: seq<Key>, n: nat, k: Key)
    requires n <= |data| == |ks|
    ensures k in Groups(data, ks, n) <==> CountOf(ks, n, k) > 0
    ensures k in Groups(data, ks, n) ==> Groups(data, ks, n)[k] == GroupOf(data, ks, n, k)
  {
    GroupSize(data, ks, n, k);
    if n > 0 {
      GroupsSpec(data, ks, n - 1, k);
    }
  }

  lemma GroupsStep(data: seq<Record>, ks: seq<Key>, i: nat)
    requires i < |data| == |ks|
    ensures var g := Groups(data, ks, i);
      Groups(data, ks, i + 1) == g[ks[i] := (if ks[i] in g then g[ks[i]] else []) + [data[i]]]
  {
  }

  /** After every row, the groups map holds exactly the groups that occur, each with all its rows in order. */
  lemma GroupsComplete(data: seq<Record>)
    ensures var groups := Groups(data, GroupKeys(data), |data|);
      forall k :: (k in groups <==> Size(GroupKeys(data), k) > 0)
        && (k in groups ==> groups[k] == Group(data, k) && |groups[k]| == Size(GroupKeys(data), k))
  {
    var ks := GroupKeys(data);
    forall k ensures (k in Groups(data, ks, |data|) <==> Size(ks, k) > 0)
      && (k in Groups(data, ks, |data|) ==> Groups(data, ks, |data|)[k] == Group(data, k) && |Groups(data, ks, |data|)[k]| == Size(ks, k))
    {
      GroupsSpec(data, ks, |data|, k);
      GroupSize(data, ks, |data|, k);
    }
  }

  // ---------------------------------------------------------------------
  // The source's three passes

  /** src/App.jsx:144-146 (and again 201-203): the group of row `i`, from its trimmed subject and level. */
  method KeyOfRow(filtered: seq<Record>, i: nat) returns (key: Key)
    requires i < |filtered|
    ensures key == GroupKeys(filtered)[i]
  {
    var rec := filtered[i];
    var subject := Trim(TextOf(Get(rec, FieldKey)));
    var levelKey := Trim(TextOf(Get(rec, LevelKey)));
    key := (subject, levelKey);
    GroupKeysAt(filtered, i);
  }

  /** src/App.jsx:142-149: the rows of each group, in order. */
  method GroupRows(filtered: seq<Record>) returns (groups: map<Key, seq<Record>>)
    ensures groups == Groups(filtered, GroupKeys(filtered), |filtered|)
  {
    ghost var ks := GroupKeys(filtered);
    groups := map[];
    for i := 0 to |filtered|
      invariant groups == Groups(filtered, ks, i)
    {
      var rec := filtered[i];
      var key := KeyOfRow(filtered, i);
      GroupsStep(filtered, ks, i);
      var current := if key in groups then groups[key] else [];
      groups := groups[key := current + [rec]];
    }
  }

  /** src/App.jsx:189-195 for one group of `n` rows. */
  method GroupAssignments(rooms: seq<string>, n: nat) returns (assignments: map<nat, string>)
    ensures assignments == Assignments(rooms, n)
  {
    assignments := map[];
    if |rooms| == 1 {
      for idx := 0 to n
        invariant assignments == map j: nat | j < idx :: RoomAt(rooms, n, j)
      {
        assignments := assignments[idx := rooms[0]];
      }
    } else if |rooms| == 2 {
      var half := (n + 1) / 2;
      for idx := 0 to n
        invariant assignments == map j: nat | j < idx :: RoomAt(rooms, n, j)
      {
        assignments := assignments[idx := if idx < half then rooms[0] else rooms[1]];
      }
    }
  }

  /** src/App.jsx:185-197: the assignments of every group. */
  method AllAssignments(groups: map<Key, seq<Record>>) returns (assignmentsPerGroup: map<Key, map<nat, string>>)
    ensures assignmentsPerGroup.Keys == groups.Keys
    ensures forall k :: k in groups ==> assignmentsPerGroup[k] == Assignments(RoomsFor(k.0, k.1), |groups[k]|)
  {
    assignmentsPerGroup := map[];
    var todo := groups.Keys;
    while todo != {}
      invariant todo <= groups.Keys
      invariant assignmentsPerGroup.Keys == groups.Keys - todo
      invariant forall k :: k in assignmentsPerGroup ==> assignmentsPerGroup[k] == Assignments(RoomsFor(k.0, k.1), |groups[k]|)
      decreases |todo|
    {
      var key :| key in todo;
      var assignments := GroupAssignments(RoomsFor(key.0, key.1), |groups[key]|);
      assignmentsPerGroup := assignmentsPerGroup[key := assignments];
      todo := todo - {key};
    }
  }

  /** The room `RoomAt` gives is the one the group's assignment map holds, or `''` when it holds none. */
  lemma AssignmentsLookup(rooms: seq<string>, n: nat, idx: nat)
    requires idx < n
    ensures (if idx in Assignments(rooms, n) then Assignments(rooms, n)[idx] else "") == RoomAt(rooms, n, idx)
  {
  }

  /** The assignment maps of src/App.jsx:185-197: every group present has the rank-to-room map for its size. */
  ghost predicate Planned(ks: seq<Key>, assignmentsPerGroup: map<Key, map<nat, string>>) {
    forall k :: Size(ks, k) > 0 ==>
      k in assignmentsPerGroup && assignmentsPerGroup[k] == Assignments(RoomsFor(k.0, k.1), Size(ks, k))
  }

  /** The lookup of src/App.jsx:204-205: the room of rank `nextIdx` in group `key`, or `''`. */
  function PlannedRoom(assignmentsPerGroup: map<Key, map<nat, string>>, key: Key, nextIdx: nat): string {
    if key in assignmentsPerGroup && nextIdx in assignmentsPerGroup[key] then assignmentsPerGroup[key][nextIdx] else ""
  }

  /**
   * One step of src/App.jsx:200-208: with the counters of the rows before
   * row `i`, the counter of row `i`'s group is its rank, the assignment map
   * gives it the room `RoomOf` names, and the counters move on by one row.
   */
  lemma PlaceStep(data: seq<Record>, assignmentsPerGroup: map<Key, map<nat, string>>, tracker: map<Key, nat>, i: nat)
    requires i < |data| && tracker == Counts(GroupKeys(data), i)
    requires Planned(GroupKeys(data), assignmentsPerGroup)
    ensures var key := GroupKeys(data)[i];
      var nextIdx := if key in tracker then tracker[key] else 0;
      && nextIdx == Rank(GroupKeys(data), i)
      && PlannedRoom(assignmentsPerGroup, key, nextIdx) == RoomOf(GroupKeys(data), i)
      && Counts(GroupKeys(data), i + 1) == tracker[key := nextIdx + 1]
      && AssignedPrefix(data, GroupKeys(data), i + 1) == AssignedPrefix(data, GroupKeys(data), i) + [Put(data[i], RoomKey, Str(PlannedRoom(assignmentsPerGroup, key, nextIdx)))]
  {
    var ks := GroupKeys(data);
    var key := ks[i];
    CountsSize(ks, i, key);
    RankBelowSize(ks, i);
    AssignmentsLookup(RoomsFor(key.0, key.1), Size(ks, key), Rank(ks, i));
  }

  /** src/App.jsx:199-209: every row in its original place, with the room of its rank in its group. */
  method PlaceRows(filtered: seq<Record>, assignmentsPerGroup: map<Key, map<nat, string>>) returns (result: seq<Record>)
    requires Planned(GroupKeys(filtered), assignmentsPerGroup)
    ensures result == Assigned(filtered)
  {
    var indexTrackerPerGroup: map<Key, nat> := map[];
    result := [];
    for i := 0 to |filtered|
      invariant result == AssignedPrefix(filtered, GroupKeys(filtered), i)
      invariant Counts(GroupKeys(filtered), i) == indexTrackerPerGroup
    {
      var rec := filtered[i];
      var key := KeyOfRow(filtered, i);
      var nextIdx := if key in indexTrackerPerGroup then indexTrackerPerGroup[key] else 0;
      var ruang := if key in assignmentsPerGroup && nextIdx in assignmentsPerGroup[key]
        then assignmentsPerGroup[key][nextIdx] else "";
      PlaceStep(filtered, assignmentsPerGroup, indexTrackerPerGroup, i);
      indexTrackerPerGroup := indexTrackerPerGroup[key := nextIdx + 1];
      result := result + [Put(rec, RoomKey, Str(ruang))];
    }
  }

  /** src/App.jsx:137-212. */
  method AssignRooms(filtered: seq<Record>) returns (result: seq<Record>)
    ensures result == Assigned(filtered)
  {
    if |filtered| == 0 {
      return [];
    }
    var groups := GroupRows(filtered);
    GroupsComplete(filtered);
    var assignmentsPerGroup := AllAssignments(groups);
    result := PlaceRows(filtered, assignmentsPerGroup);
  }

  // ---------------------------------------------------------------------
  // Properties

  /** Row `i` of the output is row `i` of the input with its room. */
  lemma {:induction false} AssignedAt(data: seq<Record>, ks: seq<Key>, n: nat, i: nat)
    requires i < n <= |data| == |ks|
    ensures AssignedPrefix(data, ks, n)[i] == Row(data, ks, i)
    decreases n
  {
    if i < n - 1 {
      AssignedAt(data, ks, n - 1, i);
    }
  }

  /**
   * Every output row keeps the fields of its input row, in their order, and
   * gains `Ruang` (last, unless the row already had one) holding its room.
   */
  lemma AssignedFields(data: seq<Record>, i: nat, k: string)
    requires i < |data|
    ensures Get(Assigned(data)[i], k) == if k == RoomKey then Some(Str(RoomOf(GroupKeys(data), i))) else Get(data[i], k)
    ensures Keys(Assigned(data)[i]) == if RoomKey in Keys(data[i]) then Keys(data[i]) else Keys(data[i]) + [RoomKey]
  {
    AssignedAt(data, GroupKeys(data), |data|, i);
    GetPut(data[i], RoomKey, Str(RoomOf(GroupKeys(data), i)), k);
    KeysPut(data[i], RoomKey, Str(RoomOf(GroupKeys(data), i)));
  }

  /** Every row of a group's list has that group. */
  lemma {:induction false} GroupMembers(data: seq<Record>, n: nat, k: Key)
    requires n <= |data|
    ensures forall r :: r in GroupOf(data, GroupKeys(data), n, k) ==> GroupKey(r) == k
  {
    if n > 0 {
      GroupMembers(data, n - 1, k);
      GroupKeysAt(data, n - 1);
    }
  }

  /** The room table lists at most two rooms per group, all named. */
  lemma RoomsForShape(subject: string, level: string)
    ensures |RoomsFor(subject, level)| <= 2
    ensures forall j :: 0 <= j < |RoomsFor(subject, level)| ==> RoomsFor(subject, level)[j] != ""
    ensures |RoomsFor(subject, level)| == 2 ==> RoomsFor(subject, level)[0] != RoomsFor(subject, level)[1]
  {
  }

  /**
   * A row gets one of its group's rooms; it gets the empty name exactly when
   * the table has no room for its group (an unknown subject or level).
   */
  lemma RoomIsListed(ks: seq<Key>, i: nat)
    requires i < |ks|
    ensures RoomOf(ks, i) == "" <==> RoomsFor(ks[i].0, ks[i].1) == []
    ensures RoomOf(ks, i) != "" ==> RoomOf(ks, i) in RoomsFor(ks[i].0, ks[i].1)
    ensures |RoomsFor(ks[i].0, ks[i].1)| == 1 ==> RoomOf(ks, i) == RoomsFor(ks[i].0, ks[i].1)[0]
  {
    RoomsForShape(ks[i].0, ks[i].1);
  }

  /** The number of rows among the first `n` that are in group `k` and get room `room`. */
  function CountRoom(ks: seq<Key>, n: nat, k: Key, room: string): nat
    requires n <= |ks|
  {
    if n == 0 then 0
    else CountRoom(ks, n - 1, k, room) + (if ks[n - 1] == k && RoomOf(ks, n - 1) == room then 1 else 0)
  }

  function Min(a: nat, b: nat): nat {
    if a <= b then a else b
  }

  /**
   * In a group with two rooms, the rows fill the first room up to half the
   * group (rounded up), in list order, and only then the second room.
   */
  lemma {:induction false} TwoRoomPrefix(ks: seq<Key>, n: nat, k: Key)
    requires n <= |ks| && |RoomsFor(k.0, k.1)| == 2
    ensures var rooms := RoomsFor(k.0, k.1);
      var h := Half(Size(ks, k));
      && CountRoom(ks, n, k, rooms[0]) == Min(CountOf(ks, n, k), h)
      && CountRoom(ks, n, k, rooms[1]) == CountOf(ks, n, k) - Min(CountOf(ks, n, k), h)
  {
    RoomsForShape(k.0, k.1);
    if n > 0 {
      TwoRoomPrefix(ks, n - 1, k);
    }
  }

  /**
   * The two-room split: the first room gets `Math.ceil(n / 2)` of the group's
   * `n` rows and the second room the other `floor(n / 2)`.
   */
  lemma TwoRoomSplit(ks: seq<Key>, k: Key)
    requires |RoomsFor(k.0, k.1)| == 2
    ensures CountRoom(ks, |ks|, k, RoomsFor(k.0, k.1)[0]) == Half(Size(ks, k))
    ensures CountRoom(ks, |ks|, k, RoomsFor(k.0, k.1)[1]) == Size(ks, k) / 2
  {
    TwoRoomPrefix(ks, |ks|, k);
  }

  /** When every row is in one group, a row's rank is its position and the group is the whole list. */
  lemma {:induction false} OneGroupRank(ks: seq<Key>, k: Key, n: nat)
    requires n <= |ks|
    requires forall j :: 0 <= j < |ks| ==> ks[j] == k
    ensures CountOf(ks, n, k) == n
  {
    if n > 0 {
      OneGroupRank(ks, k, n - 1);
    }
  }

  /** Among keys of one Matematika Level 1 group, the first half (rounded up) get Mekkah, the rest Jeddah. */
  lemma OneGroupRooms(ks: seq<Key>, i: nat)
    requires i < |ks|
    requires forall j :: 0 <= j < |ks| ==> ks[j] == ("Matematika", "Level 1")
    ensures RoomOf(ks, i) == if i < Half(|ks|) then "Ruang 1 Mekkah" else "Ruang 2 Jeddah"
  {
    OneGroupRank(ks, ("Matematika", "Level 1"), i);
    OneGroupRank(ks, ("Matematika", "Level 1"), |ks|);
  }

  /**
   * Matematika Level 1 rows alone: row `i` receives `Ruang 1 Mekkah` when it
   * is among the first half (rounded up) and `Ruang 2 Jeddah` otherwise.
   */
  lemma MatematikaLevel1(data: seq<Record>, i: nat)
    requires i < |data|
    requires forall j :: 0 <= j < |data| ==> GroupKey(data[j]) == ("Matematika", "Level 1")
    ensures Get(Assigned(data)[i], RoomKey) == Some(Str(if i < Half(|data|) then "Ruang 1 Mekkah" else "Ruang 2 Jeddah"))
  {
    var ks := GroupKeys(data);
    forall j | 0 <= j < |ks| ensures ks[j] == ("Matematika", "Level 1") {
      GroupKeysAt(data, j);
    }
    OneGroupRooms(ks, i);
    AssignedFields(data, i, RoomKey);
  }

  /** Five such rows: the first three receive Mekkah, the last two Jeddah. */
  lemma FiveRowsExample(data: seq<Record>)
    requires |data| == 5
    requires forall j :: 0 <= j < |data| ==> GroupKey(data[j]) == ("Matematika", "Level 1")
    ensures forall i :: 0 <= i < 3 ==> Get(Assigned(data)[i], RoomKey) == Some(Str("Ruang 1 Mekkah"))
    ensures forall i :: 3 <= i < 5 ==> Get(Assigned(data)[i], RoomKey) == Some(Str("Ruang 2 Jeddah"))
  {
    assert Half(5) == 3;
    forall i | 0 <= i < 5
      ensures Get(Assigned(data)[i], RoomKey) == Some(Str(if i < 3 then "Ruang 1 Mekkah" else "Ruang 2 Jeddah"))
    {
      MatematikaLevel1(data, i);
    }
  }
}
