/**
 * The filter engine of src/App.jsx:101-135.
 *
 * Each record is tested against the level criterion and the search text; a
 * record whose competition field starts with `Mengikuti keduanya` (it takes
 * part in both subjects) is expanded into a Matematika row and/or a Sains
 * row; any other record is kept only when no subject is chosen or the
 * subject is its own.
 *
 * `RowsOf` says what one record contributes, `FilterSpec` is the whole
 * output in those terms, and the method `Filter` is the source's loop,
 * proved to compute `FilterSpec`.
 */
module Filter {
  import opened Text
  import opened Opt
  import opened Records

  const DualMarker := "Mengikuti keduanya"
  const Matematika := "Matematika"
  const Sains := "Sains"

  /** The filter state: chosen level, chosen subject (`mapel`) and search text (`q`); `""` means not set. */
  datatype Criteria = Criteria(level: string, mapel: string, q: string)

  /** No criterion set. */
  const NoCriteria := Criteria("", "", "")

  /** `bidangRaw`: the competition field as trimmed text. */
  function Field(r: Record): string {
    Trim(TextOf(Get(r, FieldKey)))
  }

  /** `levelOk`: no level chosen, or `String(r['Level']).trim()` is the chosen one. */
  predicate LevelOk(r: Record, level: string) {
    level == "" || Trim(JsString(Get(r, LevelKey))) == level
  }

  /** `teksGabung`: name, school, level and field, each lower-cased, joined by spaces. */
  function SearchText(r: Record): string {
    Join([Lower(TextOf(Get(r, NameKey))), Lower(TextOf(Get(r, SchoolKey))),
          Lower(TextOf(Get(r, LevelKey))), Lower(Field(r))], " ")
  }

  /** `qLower`: the search text, trimmed and lower-cased. */
  function Query(q: string): string {
    Lower(Trim(q))
  }

  /** `searchOk`: no search text, or the record's joined text contains it. */
  predicate SearchOk(r: Record, q: string) {
    Query(q) == "" || Contains(SearchText(r), Query(q))
  }

  /** `isKeduanya`: the record takes part in both subjects. */
  predicate IsDual(r: Record) {
    DualMarker <= Field(r)
  }

  /** The record with its competition field set to `subject`. */
  function WithField(r: Record, subject: string): Record {
    Put(r, FieldKey, Str(subject))
  }

  /** The rows record `r` contributes to the output (src/App.jsx:105-132). */
  function RowsOf(r: Record, c: Criteria): seq<Record> {
    if !LevelOk(r, c.level) || !SearchOk(r, c.q) then []
    else if IsDual(r) then
      if c.mapel == Matematika then [WithField(r, Matematika)]
      else if c.mapel == Sains then [WithField(r, Sains)]
      else [WithField(r, Matematika), WithField(r, Sains)]
    else if c.mapel == "" || c.mapel == Field(r) then [r]
    else []
  }

  /** The rows of all records, record after record. */
  function FilterSpec(data: seq<Record>, c: Criteria): seq<Record> {
    if data == [] then [] else FilterSpec(data[..|data| - 1], c) + RowsOf(data[|data| - 1], c)
  }

  /** The loop of src/App.jsx:103-133. */
  method Filter(data: seq<Record>, c: Criteria) returns (results: seq<Record>)
    ensures results == FilterSpec(data, c)
  {
    var qLower := Lower(Trim(c.q));
    results := [];
    for i := 0 to |data|
      invariant results == FilterSpec(data[..i], c)
    {
      var rows := Visit(data[i], c, qLower);
      FilterStep(data, c, i);
      results := results + rows;
    }
    assert data[..|data|] == data;
  }

  /**
   * One pass of the loop body (src/App.jsx:104-132): the rows pushed for
   * record `r`; each `continue` of the source is a `return` here.
   */
  method Visit(r: Record, c: Criteria, qLower: string) returns (rows: seq<Record>)
    requires qLower == Query(c.q)
    ensures rows == RowsOf(r, c)
  {
    rows := [];
    var levelOk := LevelOk(r, c.level);
    if !levelOk { return; }
    var bidangRaw := Field(r);
    var teksGabung := SearchText(r);
    var searchOk := qLower == "" || Contains(teksGabung, qLower);
    if !searchOk { return; }
    var isKeduanya := DualMarker <= bidangRaw;
    if isKeduanya {
      if c.mapel == Matematika {
        rows := rows + [WithField(r, Matematika)];
      } else if c.mapel == Sains {
        rows := rows + [WithField(r, Sains)];
      } else {
        rows := rows + [WithField(r, Matematika)];
        rows := rows + [WithField(r, Sains)];
      }
    } else if c.mapel == "" || c.mapel == bidangRaw {
      rows := rows + [r];
    }
  }

  /** One more record: its rows go after those of the records before it. */
  lemma FilterStep(data: seq<Record>, c: Criteria, i: nat)
    requires i < |data|
    ensures FilterSpec(data[..i + 1], c) == FilterSpec(data[..i], c) + RowsOf(data[i], c)
  {
    assert data[..i + 1][..i] == data[..i];
  }

  // ---------------------------------------------------------------------
  // Properties

  /** The output keeps the input order: filtering a concatenation is concatenating the filtered parts. */
  lemma {:induction false} FilterAppend(a: seq<Record>, b: seq<Record>, c: Criteria)
    ensures FilterSpec(a + b, c) == FilterSpec(a, c) + FilterSpec(b, c)
    decreases |b|
  {
    if b == [] {
      assert a + b == a;
    } else {
      var b' := b[..|b| - 1];
      assert (a + b)[..|a + b| - 1] == a + b';
      FilterAppend(a, b', c);
    }
  }

  lemma FilterOne(r: Record, c: Criteria)
    ensures FilterSpec([r], c) == RowsOf(r, c)
  {
    assert [r][..0] == [];
  }

  /** A record contributes nothing exactly when it fails the level test, fails the search, or is a single-subject record of another subject. */
  lemma Dropped(r: Record, c: Criteria)
    ensures RowsOf(r, c) == [] <==>
      !LevelOk(r, c.level) || !SearchOk(r, c.q) || (!IsDual(r) && c.mapel != "" && c.mapel != Field(r))
  {
  }

  /** A single-subject record that passes is emitted once, unchanged. */
  lemma SingleKept(r: Record, c: Criteria)
    requires LevelOk(r, c.level) && SearchOk(r, c.q) && !IsDual(r)
    requires c.mapel == "" || c.mapel == Field(r)
    ensures RowsOf(r, c) == [r]
  {
  }

  /** `WithField` changes the competition field and nothing else. */
  lemma WithFieldFields(r: Record, subject: string, k: string)
    ensures Get(WithField(r, subject), k) == if k == FieldKey then Some(Str(subject)) else Get(r, k)
  {
    GetPut(r, FieldKey, Str(subject), k);
  }

  /**
   * A dual-subject record that passes becomes two rows, Matematika then Sains,
   * when no subject is chosen, and one row with the chosen subject when it is
   * Matematika or Sains; each row equals the record in every other field.
   */
  lemma DualExpanded(r: Record, c: Criteria)
    requires LevelOk(r, c.level) && SearchOk(r, c.q) && IsDual(r)
    ensures c.mapel == Matematika || c.mapel == Sains ==> RowsOf(r, c) == [WithField(r, c.mapel)]
    ensures c.mapel != Matematika && c.mapel != Sains ==> RowsOf(r, c) == [WithField(r, Matematika), WithField(r, Sains)]
    ensures forall i, k :: 0 <= i < |RowsOf(r, c)| && k != FieldKey ==> Get(RowsOf(r, c)[i], k) == Get(r, k)
  {
    var rows := RowsOf(r, c);
    assert forall row :: row in rows ==> row == WithField(r, Matematika) || row == WithField(r, Sains);
    forall i, k | 0 <= i < |rows| && k != FieldKey ensures Get(rows[i], k) == Get(r, k) {
      assert rows[i] in rows;
      WithFieldFields(r, Matematika, k);
      WithFieldFields(r, Sains, k);
    }
  }

  /** Every row the filter emits passes the level test and the search. */
  lemma {:induction false} RowsPass(data: seq<Record>, c: Criteria, i: nat)
    requires i < |FilterSpec(data, c)|
    ensures exists j :: (0 <= j < |data| && LevelOk(data[j], c.level) && SearchOk(data[j], c.q)
      && FilterSpec(data, c)[i] in RowsOf(data[j], c))
  {
    var last := |data| - 1;
    var front := FilterSpec(data[..last], c);
    if i < |front| {
      RowsPass(data[..last], c, i);
      var j :| 0 <= j < last && LevelOk(data[..last][j], c.level) && SearchOk(data[..last][j], c.q)
        && front[i] in RowsOf(data[..last][j], c);
      assert data[..last][j] == data[j];
    } else {
      assert FilterSpec(data, c)[i] == RowsOf(data[last], c)[i - |front|];
    }
  }

  /** The number of dual-subject records. */
  function CountDual(data: seq<Record>): (n: nat)
    ensures n <= |data|
  {
    if data == [] then 0 else CountDual(data[..|data| - 1]) + (if IsDual(data[|data| - 1]) then 1 else 0)
  }

  /** With no criterion set, every record is kept and every dual-subject record counts twice. */
  lemma {:induction false} NoCriteriaLength(data: seq<Record>)
    ensures |FilterSpec(data, NoCriteria)| == |data| + CountDual(data)
  {
    if data != [] {
      NoCriteriaLength(data[..|data| - 1]);
    }
  }
}
