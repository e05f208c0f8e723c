/**
 * Participant records as the pipeline sees them: objects read from the
 * dataset, i.e. field names in insertion order, each with a value.
 *
 * A record is an association list whose keys are distinct (`UniqueKeys`), so
 * key order, which `Object.keys` and the CSV header follow, is part of the
 * model.  Values are text, integers or `null`; a field that is missing reads
 * as `None` (JavaScript's `undefined`).
 */
module Records {
  import opened Text
  import opened Opt

  datatype Value = Str(s: string) | Num(n: int) | Null

  type Record = seq<(string, Value)>

  /** The field names the pipeline reads and writes. */
  const NameKey := "Nama Lengkap Siswa/i"
  const SchoolKey := "Sekolah Asal Siswa/i"
  const LevelKey := "Level"
  const FieldKey := "Bidang Kompetisi"
  const RoomKey := "Ruang"

  /** `Object.keys(r)`. */
  function Keys(r: Record): (ks: seq<string>)
    ensures |ks| == |r| && forall i :: 0 <= i < |r| ==> ks[i] == r[i].0
  {
    seq(|r|, i requires 0 <= i < |r| => r[i].0)
  }

  /** No field name occurs twice, as in every JavaScript object. */
  predicate UniqueKeys(r: Record) {
    forall i, j :: 0 <= i < j < |r| ==> r[i].0 != r[j].0
  }

  /** `r[k]`: the value of field `k`, or `None` when there is no such field. */
  function Get(r: Record, k: string): (v: Option<Value>)
    ensures v.Some? <==> k in Keys(r)
  {
    if r == [] then None
    else if r[0].0 == k then Some(r[0].1)
    else
      assert Keys(r) == [r[0].0] + Keys(r[1..]);
      Get(r[1..], k)
  }

  /** `{ ...r, [k]: v }`: an existing field keeps its place and takes the new value; a new one goes last. */
  function Put(r: Record, k: string, v: Value): Record {
    if r == [] then [(k, v)]
    else if r[0].0 == k then [(k, v)] + r[1..]
    else [r[0]] + Put(r[1..], k, v)
  }

  /** `String(x)` for the values the dataset holds. */
  function JsString(x: Option<Value>): string {
    match x
    case None => "undefined"
    case Some(Null) => "null"
    case Some(Str(s)) => s
    case Some(Num(n)) => Decimal(n)
  }

  /** `String(x ?? '')`: a missing field or `null` reads as the empty text. */
  function TextOf(x: Option<Value>): (t: string)
    ensures x.None? || x == Some(Null) ==> t == ""
    ensures x.Some? && x.value.Str? ==> t == x.value.s
  {
    if x.None? || x == Some(Null) then "" else JsString(x)
  }

  // ---------------------------------------------------------------------
  // Integers written in decimal, as `String(n)` does

  function DigitChar(d: nat): char
    requires d < 10
  {
    "0123456789"[d]
  }

  /** The decimal digits of `n`, most significant first, without leading zeros. */
  function Digits(n: nat): (s: string)
    ensures s != [] && AllDigits(s)
  {
    if n < 10 then [DigitChar(n)] else Digits(n / 10) + [DigitChar(n % 10)]
  }

  function Decimal(n: int): string {
    if n < 0 then "-" + Digits(-n) else Digits(n)
  }

  /** The number a string of decimal digits stands for. */
  function DigitsValue(s: string): nat
    requires AllDigits(s)
  {
    if s == [] then 0 else 10 * DigitsValue(s[..|s| - 1]) + (s[|s| - 1] as int - '0' as int)
  }

  /** Reading the digits back gives the number. */
  lemma {:induction false} DigitsRoundTrip(n: nat)
    ensures DigitsValue(Digits(n)) == n
  {
    if n >= 10 {
      DigitsRoundTrip(n / 10);
      var s := Digits(n);
      assert s[..|s| - 1] == Digits(n / 10);
    }
  }

  /** `String(n)` reads back as `n`: a minus sign exactly for negative numbers, then the digits of the magnitude. */
  lemma DecimalRoundTrip(n: int)
    ensures Decimal(n) != [] && (Decimal(n)[0] == '-' <==> n < 0)
    ensures n < 0 ==> AllDigits(Decimal(n)[1..]) && DigitsValue(Decimal(n)[1..]) == -n
    ensures n >= 0 ==> AllDigits(Decimal(n)) && DigitsValue(Decimal(n)) == n
  {
    var m := if n < 0 then -n else n;
    var d := Digits(m);
    DigitsRoundTrip(m);
    if n < 0 {
      assert Decimal(n) == "-" + d;
      assert Decimal(n)[1..] == d;
    } else {
      assert Decimal(n) == d;
      assert IsDigit(d[0]);
    }
  }

  /** A decimal numeral has no whitespace, so `trim()` leaves it alone. */
  lemma DecimalTrimmed(n: int)
    ensures Trim(Decimal(n)) == Decimal(n)
  {
    var s := Decimal(n);
    DecimalRoundTrip(n);
    assert !IsSpace(s[0]);
    if n < 0 {
      assert s[|s| - 1] == s[1..][|s| - 2];
    }
    assert IsDigit(s[|s| - 1]);
  }

  // ---------------------------------------------------------------------
  // What `Put` does to a record

  /** Reading back the field just written gives the new value; every other field is as before. */
  lemma {:induction false} GetPut(r: Record, k: string, v: Value, j: string)
    ensures Get(Put(r, k, v), j) == if j == k then Some(v) else Get(r, j)
  {
    if r != [] && r[0].0 != k {
      GetPut(r[1..], k, v, j);
    }
  }

  /** Writing a field that exists keeps the field order; a new field goes at the end. */
  lemma {:induction false} KeysPut(r: Record, k: string, v: Value)
    ensures Keys(Put(r, k, v)) == if k in Keys(r) then Keys(r) else Keys(r) + [k]
  {
    if r != [] {
      var rest := r[1..];
      assert r == [r[0]] + rest;
      KeysCons(r[0], rest);
      if r[0].0 != k {
        KeysPut(rest, k, v);
        KeysCons(r[0], Put(rest, k, v));
        assert (k in Keys(r)) == (k in Keys(rest));
      } else {
        KeysCons((k, v), rest);
      }
    }
  }

  lemma KeysCons(f: (string, Value), rest: Record)
    ensures Keys([f] + rest) == [f.0] + Keys(rest)
  {
  }

  lemma UniqueKeysOf(r: Record)
    ensures UniqueKeys(r) <==> forall i, j :: 0 <= i < j < |Keys(r)| ==> Keys(r)[i] != Keys(r)[j]
  {
    var ks := Keys(r);
    assert forall i :: 0 <= i < |r| ==> ks[i] == r[i].0;
  }

  /** A record stays a valid object when a field is written. */
  lemma PutKeepsUnique(r: Record, k: string, v: Value)
    requires UniqueKeys(r)
    ensures UniqueKeys(Put(r, k, v))
  {
    KeysPut(r, k, v);
    UniqueKeysOf(r);
    UniqueKeysOf(Put(r, k, v));
  }

  /** With distinct keys, writing field `r[i].0` replaces exactly position `i`. */
  lemma {:induction false} PutAt(r: Record, i: nat, v: Value)
    requires UniqueKeys(r) && i < |r|
    ensures Put(r, r[i].0, v) == r[i := (r[i].0, v)]
  {
    if i > 0 {
      assert r[0].0 != r[i].0;
      assert UniqueKeys(r[1..]) by {
        forall a, b | 0 <= a < b < |r| - 1 ensures r[1..][a].0 != r[1..][b].0 {
          assert r[1..][a] == r[a + 1] && r[1..][b] == r[b + 1];
        }
      }
      PutAt(r[1..], i - 1, v);
      assert r[1..][i - 1] == r[i];
      assert [r[0]] + r[1..][i - 1 := (r[i].0, v)] == r[i := (r[i].0, v)];
    }
  }

  /** With distinct keys, `Get` finds the value stored at the key's position. */
  lemma {:induction false} GetAt(r: Record, i: nat)
    requires UniqueKeys(r) && i < |r|
    ensures Get(r, r[i].0) == Some(r[i].1)
  {
    if i > 0 {
      assert r[0].0 != r[i].0;
      assert UniqueKeys(r[1..]) by {
        forall a, b | 0 <= a < b < |r| - 1 ensures r[1..][a].0 != r[1..][b].0 {
          assert r[1..][a] == r[a + 1] && r[1..][b] == r[b + 1];
        }
      }
      GetAt(r[1..], i - 1);
      assert r[1..][i - 1] == r[i];
    }
  }
}
