/**
 * The record loader of src/App.jsx:76-88: every record of the dataset is
 * copied, each text field is trimmed, and then the student name and the
 * school name are normalised.
 *
 * `LoadRecord` follows the source's loop over the record's keys; `Loaded` is
 * the same record described field by field, and the lemmas state what
 * loading does to each field.
 */
module Loader {
  import opened Text
  import opened Opt
  import opened Records
  import opened Normalize
  import opened School
  import opened TokenView

  /** `if (typeof v === 'string') v = v.trim()`. */
  function TrimValue(v: Value): Value {
    if v.Str? then Str(Trim(v.s)) else v
  }

  /** The record with every text field trimmed, fields kept in place. */
  function TrimFields(r: Record): (o: Record)
    ensures |o| == |r|
  {
    seq(|r|, i requires 0 <= i < |r| => (r[i].0, TrimValue(r[i].1)))
  }

  /** `if (typeof r[key] === 'string') r[key] = f(r[key])`. */
  function Normalized(r: Record, key: string, f: string -> string): Record {
    match Get(r, key)
    case Some(Str(s)) => Put(r, key, Str(f(s)))
    case _ => r
  }

  /** One loaded record: trimmed, then the name and the school normalised. */
  function Loaded(r: Record): Record {
    Normalized(Normalized(TrimFields(r), NameKey, NormalizeStudentName), SchoolKey, NormalizeSchoolName)
  }

  /** `dataFull.map(...)`: the loaded dataset. */
  function Load(data: seq<Record>): (out: seq<Record>)
    ensures |out| == |data| && forall i :: 0 <= i < |data| ==> out[i] == Loaded(data[i])
  {
    seq(|data|, i requires 0 <= i < |data| => Loaded(data[i]))
  }

  /**
   * What loading makes of the value `v` of field `k`, field by field: text is
   * trimmed, and the name and school fields are then normalised; other
   * values, and missing fields, are left as they are.
   */
  function LoadedValue(k: string, v: Option<Value>): Option<Value> {
    match v
    case Some(Str(s)) =>
      Some(Str(if k == NameKey then NormalizeStudentName(Trim(s))
               else if k == SchoolKey then NormalizeSchoolName(Trim(s))
               else Trim(s)))
    case _ => v
  }

  lemma {:induction false} GetTrimFields(r: Record, k: string)
    ensures Get(TrimFields(r), k) == if Get(r, k).Some? then Some(TrimValue(Get(r, k).value)) else None
  {
    if r != [] {
      assert TrimFields(r)[1..] == TrimFields(r[1..]);
      GetTrimFields(r[1..], k);
    }
  }

  lemma GetNormalized(r: Record, key: string, f: string -> string, k: string)
    ensures Get(Normalized(r, key, f), k) ==
      if k == key && Get(r, k).Some? && Get(r, k).value.Str? then Some(Str(f(Get(r, k).value.s))) else Get(r, k)
  {
    if Get(r, key).Some? && Get(r, key).value.Str? {
      GetPut(r, key, Str(f(Get(r, key).value.s)), k);
    }
  }

  lemma KeysNormalized(r: Record, key: string, f: string -> string)
    requires UniqueKeys(r)
    ensures Keys(Normalized(r, key, f)) == Keys(r) && UniqueKeys(Normalized(r, key, f))
  {
    if Get(r, key).Some? && Get(r, key).value.Str? {
      KeysPut(r, key, Str(f(Get(r, key).value.s)));
      PutKeepsUnique(r, key, Str(f(Get(r, key).value.s)));
    }
  }

  /** Loading reads field by field as `LoadedValue` says. */
  lemma LoadedFields(r: Record, k: string)
    ensures Get(Loaded(r), k) == LoadedValue(k, Get(r, k))
  {
    var t := TrimFields(r);
    var n := Normalized(t, NameKey, NormalizeStudentName);
    GetTrimFields(r, k);
    GetNormalized(t, NameKey, NormalizeStudentName, k);
    GetNormalized(n, SchoolKey, NormalizeSchoolName, k);
  }

  /** Loading changes values only: the fields and their order stay, and the record stays a valid object. */
  lemma LoadedKeys(r: Record)
    requires UniqueKeys(r)
    ensures Keys(Loaded(r)) == Keys(r) && UniqueKeys(Loaded(r))
  {
    var t := TrimFields(r);
    assert Keys(t) == Keys(r);
    assert UniqueKeys(t) by {
      forall a, b | 0 <= a < b < |t| ensures t[a].0 != t[b].0 {
        assert t[a].0 == r[a].0 && t[b].0 == r[b].0;
      }
    }
    KeysNormalized(t, NameKey, NormalizeStudentName);
    KeysNormalized(Normalized(t, NameKey, NormalizeStudentName), SchoolKey, NormalizeSchoolName);
  }

  /** Trimming field `i` of a record whose first `i` fields are already trimmed. */
  lemma TrimStep(r: Record, o: Record, i: nat)
    requires UniqueKeys(r) && i < |r| && |o| == |r|
    requires forall j :: 0 <= j < i ==> o[j] == (r[j].0, TrimValue(r[j].1))
    requires forall j :: i <= j < |r| ==> o[j] == r[j]
    ensures Get(o, r[i].0) == Some(r[i].1)
    ensures r[i].1.Str? ==> Put(o, r[i].0, Str(Trim(r[i].1.s))) == o[i := (r[i].0, TrimValue(r[i].1))]
  {
    assert UniqueKeys(o) by {
      forall a, b | 0 <= a < b < |o| ensures o[a].0 != o[b].0 {
        assert o[a].0 == r[a].0 && o[b].0 == r[b].0;
      }
    }
    GetAt(o, i);
    if r[i].1.Str? {
      PutAt(o, i, Str(Trim(r[i].1.s)));
    }
  }

  /** The loop of src/App.jsx:78-80 over the record's keys. */
  method TrimAll(r: Record) returns (o: Record)
    requires UniqueKeys(r)
    ensures o == TrimFields(r)
  {
    o := r;
    var keys := Keys(o);
    for i := 0 to |keys|
      invariant |o| == |r|
      invariant forall j :: 0 <= j < i ==> o[j] == (r[j].0, TrimValue(r[j].1))
      invariant forall j :: i <= j < |r| ==> o[j] == r[j]
    {
      var k := keys[i];
      TrimStep(r, o, i);
      var v := Get(o, k);
      if v.Some? && v.value.Str? {
        o := Put(o, k, Str(Trim(v.value.s)));
      }
    }
  }

  /** One record of src/App.jsx:76-88. */
  method LoadRecord(r: Record) returns (o: Record)
    requires UniqueKeys(r)
    ensures o == Loaded(r)
  {
    o := TrimAll(r);
    var name := Get(o, NameKey);
    if name.Some? && name.value.Str? {
      o := Put(o, NameKey, Str(NormalizeStudentName(name.value.s)));
    }
    var school := Get(o, SchoolKey);
    if school.Some? && school.value.Str? {
      o := Put(o, SchoolKey, Str(NormalizeSchoolName(school.value.s)));
    }
  }

  // ---------------------------------------------------------------------
  // Loading twice

  /** Every text field is its own trim. */
  predicate Trimmed(r: Record) {
    forall i :: 0 <= i < |r| && r[i].1.Str? ==> Trim(r[i].1.s) == r[i].1.s
  }

  lemma TrimFieldsTrimmed(r: Record)
    ensures Trimmed(TrimFields(r))
  {
    forall i | 0 <= i < |r| && r[i].1.Str? ensures Trim(Trim(r[i].1.s)) == Trim(r[i].1.s) {
      TrimIdempotent(r[i].1.s);
    }
  }

  lemma TrimFieldsOfTrimmed(r: Record)
    requires Trimmed(r)
    ensures TrimFields(r) == r
  {
    assert forall i :: 0 <= i < |r| ==> TrimFields(r)[i] == r[i];
  }

  lemma {:induction false} GetTrimmed(r: Record, k: string)
    requires Trimmed(r)
    ensures Get(r, k).Some? && Get(r, k).value.Str? ==> Trim(Get(r, k).value.s) == Get(r, k).value.s
  {
    if r != [] && r[0].0 != k {
      assert Trimmed(r[1..]) by {
        forall i | 0 <= i < |r| - 1 && r[1..][i].1.Str? ensures Trim(r[1..][i].1.s) == r[1..][i].1.s {
          assert r[1..][i] == r[i + 1];
        }
      }
      GetTrimmed(r[1..], k);
    }
  }

  lemma {:induction false} PutTrimmed(r: Record, k: string, x: string)
    requires Trimmed(r) && Trim(x) == x
    ensures Trimmed(Put(r, k, Str(x)))
  {
    if r != [] && r[0].0 != k {
      var rest := r[1..];
      assert Trimmed(rest) by {
        forall i | 0 <= i < |rest| && rest[i].1.Str? ensures Trim(rest[i].1.s) == rest[i].1.s {
          assert rest[i] == r[i + 1];
        }
      }
      PutTrimmed(rest, k, x);
      var p := [r[0]] + Put(rest, k, Str(x));
      forall i | 0 <= i < |p| && p[i].1.Str? ensures Trim(p[i].1.s) == p[i].1.s {
        if i > 0 { assert p[i] == Put(rest, k, Str(x))[i - 1]; }
      }
    } else if r != [] {
      var p := [(k, Str(x))] + r[1..];
      forall i | 0 <= i < |p| && p[i].1.Str? ensures Trim(p[i].1.s) == p[i].1.s {
        if i > 0 { assert p[i] == r[i]; }
      }
    }
  }

  /** Writing back the value a field already has changes nothing. */
  lemma {:induction false} PutGet(r: Record, k: string, v: Value)
    requires Get(r, k) == Some(v)
    ensures Put(r, k, v) == r
  {
    if r[0].0 != k {
      PutGet(r[1..], k, v);
    }
  }

  /** Every loaded record is trimmed: the normalisers keep trimmed text trimmed. */
  lemma LoadedTrimmed(r: Record)
    ensures Trimmed(Loaded(r))
  {
    var t := TrimFields(r);
    TrimFieldsTrimmed(r);
    GetTrimmed(t, NameKey);
    if Get(t, NameKey).Some? && Get(t, NameKey).value.Str? {
      TitleCaseTrimmed(Get(t, NameKey).value.s);
    }
    NormalizedTrimmed(t, NameKey, NormalizeStudentName);
    var n := Normalized(t, NameKey, NormalizeStudentName);
    GetTrimmed(n, SchoolKey);
    if Get(n, SchoolKey).Some? && Get(n, SchoolKey).value.Str? {
      NormalizeSchoolNameTrimmed(Get(n, SchoolKey).value.s);
    }
    NormalizedTrimmed(n, SchoolKey, NormalizeSchoolName);
  }

  /** Normalising a field with a function that keeps trimmed text trimmed keeps the record trimmed. */
  lemma NormalizedTrimmed(r: Record, key: string, f: string -> string)
    requires Trimmed(r)
    requires Get(r, key).Some? && Get(r, key).value.Str? ==> Trim(f(Get(r, key).value.s)) == f(Get(r, key).value.s)
    ensures Trimmed(Normalized(r, key, f))
  {
    if Get(r, key).Some? && Get(r, key).value.Str? {
      PutTrimmed(r, key, f(Get(r, key).value.s));
    }
  }

  /** A field whose value normalises to itself is left as it is. */
  lemma NormalizedFixed(r: Record, key: string, f: string -> string)
    requires Get(r, key).Some? && Get(r, key).value.Str? ==> f(Get(r, key).value.s) == Get(r, key).value.s
    ensures Normalized(r, key, f) == r
  {
    if Get(r, key).Some? && Get(r, key).value.Str? {
      PutGet(r, key, Get(r, key).value);
    }
  }

  /** Loading a loaded record gives it back unchanged. */
  lemma LoadedIdempotent(r: Record)
    ensures Loaded(Loaded(r)) == Loaded(r)
  {
    var l := Loaded(r);
    LoadedTrimmed(r);
    TrimFieldsOfTrimmed(l);
    LoadedFields(r, NameKey);
    if Get(r, NameKey).Some? && Get(r, NameKey).value.Str? {
      TitleCaseIdempotent(Trim(Get(r, NameKey).value.s));
    }
    NormalizedFixed(l, NameKey, NormalizeStudentName);
    LoadedFields(r, SchoolKey);
    if Get(r, SchoolKey).Some? && Get(r, SchoolKey).value.Str? {
      NormalizeSchoolNameIdempotent(Trim(Get(r, SchoolKey).value.s));
    }
    NormalizedFixed(l, SchoolKey, NormalizeSchoolName);
  }

  /** Loading a loaded dataset gives it back unchanged. */
  lemma LoadIdempotent(data: seq<Record>)
    ensures Load(Load(data)) == Load(data)
  {
    forall i | 0 <= i < |data| ensures Loaded(Load(data)[i]) == Load(data)[i] {
      LoadedIdempotent(data[i]);
    }
  }
}
