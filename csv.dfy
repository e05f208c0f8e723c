/**
 * The CSV text of `downloadCSV` (src/App.jsx:7-15).
 *
 * The header line is the first row's field names joined by commas, without
 * quotes; every data line holds one cell per header name, each cell the
 * field's text (empty for a missing or `null` field) with every `"` doubled
 * and the whole wrapped in `"`, as the quoted fields of section 2 of RFC
 * 4180 are; lines are joined by a line feed.  An empty row list gives no
 * text at all.
 *
 * `Parse` reads such a text back: the header line split at commas, then
 * one record of unquoted cell texts per data line, where a line feed inside
 * quotes belongs to the cell.  `CsvRoundTrip` proves that it returns the
 * header names and every row's cell texts.
 */
module Csv {
  import opened Text
  import opened Opt
  import opened Records

  // ---------------------------------------------------------------------
  // Writing

  /** `String(val).replaceAll('"', '""')`. */
  function Escape(s: string): string {
    if s == [] then "" else (if s[0] == '"' then "\"\"" else [s[0]]) + Escape(s[1..])
  }

  /** `'"' + cell + '"'`. */
  function Quote(s: string): (q: string)
    ensures |q| >= 2 && q[0] == '"' && q[|q| - 1] == '"'
  {
    "\"" + Escape(s) + "\""
  }

  function QuoteAll(texts: seq<string>): (out: seq<string>)
    ensures |out| == |texts|
  {
    if texts == [] then [] else [Quote(texts[0])] + QuoteAll(texts[1..])
  }

  /** `String(row[h] ?? '')` for every header name `h`, in header order. */
  function Values(row: Record, headers: seq<string>): (out: seq<string>)
    ensures |out| == |headers|
  {
    if headers == [] then [] else [TextOf(Get(row, headers[0]))] + Values(row, headers[1..])
  }

  /** The data line of one row. */
  function Line(row: Record, headers: seq<string>): string {
    Join(QuoteAll(Values(row, headers)), ",")
  }

  /** `rows.map(...)`: the data lines, in row order. */
  function Lines(rows: seq<Record>, headers: seq<string>): (out: seq<string>)
    ensures |out| == |rows|
  {
    if rows == [] then [] else [Line(rows[0], headers)] + Lines(rows[1..], headers)
  }

  /** The cell texts of every row: what a reader of the file gets back. */
  function Table(rows: seq<Record>, headers: seq<string>): (out: seq<seq<string>>)
    ensures |out| == |rows|
  {
    if rows == [] then [] else [Values(rows[0], headers)] + Table(rows[1..], headers)
  }

  /** The header line. */
  function HeaderLine(rows: seq<Record>): string
    requires rows != []
  {
    Join(Keys(rows[0]), ",")
  }

  /** The CSV text, or `None` when there are no rows. */
  function CsvText(rows: seq<Record>): Option<string> {
    if rows == [] then None
    else Some(Join([HeaderLine(rows)] + Lines(rows, Keys(rows[0])), "\n"))
  }

  // ---------------------------------------------------------------------
  // Reading back

  /** The position of the first `c` in `s`, or `|s|` when there is none. */
  function FirstIndex(s: string, c: char): (i: nat)
    ensures i <= |s| && (i < |s| ==> s[i] == c)
    ensures forall j :: 0 <= j < i ==> s[j] != c
  {
    if s == [] || s[0] == c then 0 else 1 + FirstIndex(s[1..], c)
  }

  /** `s.split(c)`. */
  function Split(s: string, c: char): (parts: seq<string>)
    ensures parts != []
    decreases |s|
  {
    var i := FirstIndex(s, c);
    if i == |s| then [s] else [s[..i]] + Split(s[i + 1..], c)
  }

  /**
   * The body of a quoted cell, read after its opening quote: `""` stands
   * for `"`, and a lone `"` closes the cell.  Gives the cell text and what
   * follows the closing quote.
   */
  function ParseQuoted(s: string): (out: Option<(string, string)>)
    ensures out.Some? ==> |out.value.1| < |s|
    decreases |s|
  {
    if s == [] then None
    else if s[0] == '"' then
      if |s| >= 2 && s[1] == '"' then
        match ParseQuoted(s[2..])
        case None => None
        case Some((c, rest)) => Some(("\"" + c, rest))
      else Some(("", s[1..]))
    else
      match ParseQuoted(s[1..])
      case None => None
      case Some((c, rest)) => Some(([s[0]] + c, rest))
  }

  /** One data line: quoted cells separated by commas, up to a line feed (not consumed) or the end. */
  function ParseLine(s: string): (out: Option<(seq<string>, string)>)
    ensures out.Some? ==> |out.value.1| < |s|
    decreases |s|
  {
    if s == [] || s[0] != '"' then None
    else
      match ParseQuoted(s[1..])
      case None => None
      case Some((c, rest)) =>
        if rest != [] && rest[0] == ',' then
          match ParseLine(rest[1..])
          case None => None
          case Some((cs, tail)) => Some(([c] + cs, tail))
        else if rest == [] || rest[0] == '\n' then Some(([c], rest))
        else None
  }

  /** The data lines: each one introduced by a line feed. */
  function ParseLines(s: string): Option<seq<seq<string>>>
    decreases |s|
  {
    if s == [] then Some([])
    else if s[0] != '\n' then None
    else
      match ParseLine(s[1..])
      case None => None
      case Some((cells, rest)) =>
        match ParseLines(rest)
        case None => None
        case Some(lines) => Some([cells] + lines)
  }

  /** A whole text: the header names, then the cell texts of every data line. */
  function Parse(text: string): Option<(seq<string>, seq<seq<string>>)> {
    var i := FirstIndex(text, '\n');
    match ParseLines(text[i..])
    case None => None
    case Some(lines) => Some((Split(text[..i], ','), lines))
  }

  // ---------------------------------------------------------------------
  // Properties

  /** A quoted cell reads back as its text, the reader stopping right after the closing quote. */
  lemma {:induction false} ParseQuotedEscape(t: string, rest: string)
    requires rest == [] || rest[0] != '"'
    ensures ParseQuoted(Escape(t) + "\"" + rest) == Some((t, rest))
  {
    var s := Escape(t) + "\"" + rest;
    if t == [] {
      assert s == "\"" + rest;
      assert s[1..] == rest;
    } else if t[0] == '"' {
      assert s == "\"\"" + (Escape(t[1..]) + "\"" + rest);
      assert s[2..] == Escape(t[1..]) + "\"" + rest;
      ParseQuotedEscape(t[1..], rest);
      assert t == "\"" + t[1..];
    } else {
      assert s == [t[0]] + (Escape(t[1..]) + "\"" + rest);
      assert s[1..] == Escape(t[1..]) + "\"" + rest;
      ParseQuotedEscape(t[1..], rest);
      assert t == [t[0]] + t[1..];
    }
  }

  /** The last cell of a line reads back, and the reader stops at the line feed or the end. */
  lemma LastCell(t: string, rest: string)
    requires rest == [] || rest[0] == '\n'
    ensures ParseLine(Quote(t) + rest) == Some(([t], rest))
  {
    var s := Quote(t) + rest;
    assert s[1..] == Escape(t) + "\"" + rest;
    ParseQuotedEscape(t, rest);
  }

  /** A cell followed by a comma reads back, and the reader goes on after the comma. */
  lemma InnerCell(t: string, more: string)
    ensures ParseLine(Quote(t) + "," + more) ==
      match ParseLine(more)
      case None => None
      case Some((cs, tail)) => Some(([t] + cs, tail))
  {
    var s := Quote(t) + "," + more;
    assert s[1..] == Escape(t) + "\"" + ("," + more);
    ParseQuotedEscape(t, "," + more);
    assert ("," + more)[1..] == more;
  }

  /** A cell in front of a line that reads back gives a longer line that reads back. */
  lemma ConsCell(t: string, ts: seq<string>, rest: string)
    requires ts != []
    requires ParseLine(Join(QuoteAll(ts), ",") + rest) == Some((ts, rest))
    ensures ParseLine(Join(QuoteAll([t] + ts), ",") + rest) == Some(([t] + ts, rest))
  {
    var q := QuoteAll([t] + ts);
    assert q[0] == Quote(t) && q[1..] == QuoteAll(ts) by {
      assert ([t] + ts)[1..] == ts;
    }
    var j := Join(q[1..], ",");
    assert Join(q, ",") == q[0] + "," + j;
    AppendAssoc(q[0] + ",", j, rest);
    InnerCell(t, j + rest);
  }

  /** A data line reads back as its cell texts. */
  lemma {:induction false} ParseLineCells(texts: seq<string>, rest: string)
    requires texts != []
    requires rest == [] || rest[0] == '\n'
    ensures ParseLine(Join(QuoteAll(texts), ",") + rest) == Some((texts, rest))
  {
    var q := QuoteAll(texts);
    assert q[0] == Quote(texts[0]) && q[1..] == QuoteAll(texts[1..]);
    if |texts| == 1 {
      assert Join(q, ",") == q[0];
      LastCell(texts[0], rest);
      assert texts == [texts[0]];
    } else {
      ParseLineCells(texts[1..], rest);
      ConsCell(texts[0], texts[1..], rest);
      assert texts == [texts[0]] + texts[1..];
    }
  }

  /** Every line of `lines` preceded by a line feed. */
  function Prefixed(lines: seq<string>): string {
    if lines == [] then "" else "\n" + lines[0] + Prefixed(lines[1..])
  }

  /** Joining a first line and more lines with line feeds puts a line feed before each further line. */
  lemma {:induction false} JoinPrefixed(first: string, lines: seq<string>)
    ensures Join([first] + lines, "\n") == first + Prefixed(lines)
    decreases |lines|
  {
    if lines != [] {
      assert ([first] + lines)[1..] == lines;
      JoinPrefixed(lines[0], lines[1..]);
      assert [lines[0]] + lines[1..] == lines;
    }
  }

  /** A data line introduced by a line feed reads back, and the reader goes on after it. */
  lemma NextLine(line: string, after: string, cells: seq<string>)
    requires ParseLine(line + after) == Some((cells, after))
    ensures ParseLines("\n" + line + after) ==
      match ParseLines(after)
      case None => None
      case Some(lines) => Some([cells] + lines)
  {
    assert ("\n" + line + after)[1..] == line + after;
  }

  /** The data lines read back as the table of cell texts. */
  lemma {:induction false} ParseLinesTable(rows: seq<Record>, headers: seq<string>)
    requires headers != []
    ensures ParseLines(Prefixed(Lines(rows, headers))) == Some(Table(rows, headers))
  {
    if rows != [] {
      var ls := Lines(rows, headers);
      var line := Line(rows[0], headers);
      var after := Prefixed(Lines(rows[1..], headers));
      assert ls[0] == line && ls[1..] == Lines(rows[1..], headers);
      assert Prefixed(ls) == "\n" + line + after;
      ParseLineCells(Values(rows[0], headers), after);
      NextLine(line, after, Values(rows[0], headers));
      ParseLinesTable(rows[1..], headers);
    }
  }

  /** A character that is in no part and not in the separator is not in the joined text. */
  lemma {:induction false} JoinAvoids(parts: seq<string>, sep: string, c: char)
    requires c !in sep && forall p :: p in parts ==> c !in p
    ensures c !in Join(parts, sep)
  {
    if |parts| > 1 {
      JoinAvoids(parts[1..], sep, c);
      assert parts[0] in parts;
    } else if |parts| == 1 {
      assert parts[0] in parts;
    }
  }

  /** Splitting at `c` undoes joining with `c` when no part contains `c`. */
  lemma {:induction false} SplitJoin(parts: seq<string>, c: char)
    requires parts != [] && forall p :: p in parts ==> c !in p
    ensures Split(Join(parts, [c]), c) == parts
  {
    var s := Join(parts, [c]);
    assert parts[0] in parts;
    if |parts| == 1 {
      assert FirstIndex(s, c) == |s|;
    } else {
      var more := Join(parts[1..], [c]);
      assert s == parts[0] + [c] + more;
      var i := FirstIndex(s, c);
      assert s[|parts[0]|] == c;
      assert forall j :: 0 <= j < |parts[0]| ==> s[j] == parts[0][j];
      assert i == |parts[0]|;
      assert s[..i] == parts[0];
      assert s[i + 1..] == more;
      forall p | p in parts[1..] ensures c !in p { assert p in parts; }
      SplitJoin(parts[1..], c);
      assert parts == [parts[0]] + parts[1..];
    }
  }

  /** The header line is the text up to the first line feed, provided no header name holds a line feed. */
  lemma HeaderFirst(rows: seq<Record>)
    requires rows != []
    requires forall h :: h in Keys(rows[0]) ==> '\n' !in h
    ensures CsvText(rows).Some?
    ensures var text := CsvText(rows).value;
      var i := FirstIndex(text, '\n');
      text[..i] == HeaderLine(rows) && text[i..] == Prefixed(Lines(rows, Keys(rows[0])))
  {
    var hs := Keys(rows[0]);
    var head := HeaderLine(rows);
    var after := Prefixed(Lines(rows, hs));
    JoinPrefixed(head, Lines(rows, hs));
    JoinAvoids(hs, ",", '\n');
    var text := CsvText(rows).value;
    assert text == head + after;
    var i := FirstIndex(text, '\n');
    if after != [] {
      assert text[|head|] == '\n';
    }
    assert forall j :: 0 <= j < |head| ==> text[j] == head[j];
    assert i == |head|;
  }

  /**
   * The CSV text reads back as the header names and, per row, the text of
   * each field named in the header: one record per row, in row order, even
   * when a cell holds commas, quotes or line feeds.  Header names are not
   * quoted, so they must hold no comma and no line feed.
   */
  lemma CsvRoundTrip(rows: seq<Record>)
    requires rows != [] && Keys(rows[0]) != []
    requires forall h :: h in Keys(rows[0]) ==> ',' !in h && '\n' !in h
    ensures CsvText(rows).Some?
    ensures Parse(CsvText(rows).value) == Some((Keys(rows[0]), Table(rows, Keys(rows[0]))))
  {
    var hs := Keys(rows[0]);
    HeaderFirst(rows);
    ParseLinesTable(rows, hs);
    SplitJoin(hs, ',');
    assert "," == [','];
  }

  /**
   * No rows, no text; otherwise one data line and one data record per row,
   * the `k`-th made from row `k` under the first row's header.
   */
  lemma CsvRecords(rows: seq<Record>)
    ensures CsvText(rows).None? <==> rows == []
    ensures rows != [] ==> |Table(rows, Keys(rows[0]))| == |rows|
    ensures rows != [] ==> forall k :: 0 <= k < |rows| ==>
      Lines(rows, Keys(rows[0]))[k] == Line(rows[k], Keys(rows[0])) &&
      Table(rows, Keys(rows[0]))[k] == Values(rows[k], Keys(rows[0]))
  {
    if rows != [] {
      var hs := Keys(rows[0]);
      forall k | 0 <= k < |rows|
        ensures Lines(rows, hs)[k] == Line(rows[k], hs) && Table(rows, hs)[k] == Values(rows[k], hs)
      {
        RowAt(rows, hs, k);
      }
    }
  }

  lemma {:induction false} RowAt(rows: seq<Record>, headers: seq<string>, k: nat)
    requires k < |rows|
    ensures Lines(rows, headers)[k] == Line(rows[k], headers)
    ensures Table(rows, headers)[k] == Values(rows[k], headers)
  {
    if k > 0 {
      RowAt(rows[1..], headers, k - 1);
    }
  }

  /** A missing or `null` field gives the empty quoted cell `""`. */
  lemma EmptyCell(row: Record, h: string)
    requires Get(row, h).None? || Get(row, h) == Some(Null)
    ensures Quote(TextOf(Get(row, h))) == "\"\""
  {
  }

  /** The `k`-th cell of a row's line is the quoted text of field `headers[k]`. */
  lemma CellAt(row: Record, headers: seq<string>, k: nat)
    requires k < |headers|
    ensures QuoteAll(Values(row, headers))[k] == Quote(TextOf(Get(row, headers[k])))
  {
    ValuesAt(row, headers, k);
    QuoteAllAt(Values(row, headers), k);
  }

  lemma {:induction false} ValuesAt(row: Record, headers: seq<string>, k: nat)
    requires k < |headers|
    ensures Values(row, headers)[k] == TextOf(Get(row, headers[k]))
  {
    if k > 0 {
      ValuesAt(row, headers[1..], k - 1);
    }
  }

  lemma {:induction false} QuoteAllAt(texts: seq<string>, k: nat)
    requires k < |texts|
    ensures QuoteAll(texts)[k] == Quote(texts[k])
  {
    if k > 0 {
      QuoteAllAt(texts[1..], k - 1);
    }
  }

  /** Escaping adds exactly one character per quote (the read-back is `ParseQuotedEscape`). */
  lemma {:induction false} EscapeLength(s: string)
    ensures |Escape(s)| == |s| + multiset(s)['"']
  {
    if s != [] {
      EscapeLength(s[1..]);
      assert s == [s[0]] + s[1..];
      assert multiset(s) == multiset([s[0]]) + multiset(s[1..]);
    }
  }
}
