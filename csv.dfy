/** The quoting and joining step of `convertBookingsToCSV`: every field is put in
    double quotes with inner quotes doubled, fields are joined by ',', rows by
    a newline, the header row comes first and the text starts with U+FEFF. A
    reader for that format is the partner the encoder is proved against. */
module Csv {
  import opened Wrappers

  const Quote: char := '"'
  const ByteOrderMark: char := '\U{FEFF}'

  /** The header row of the export. */
  const Headers: seq<string> :=
    ["預約ID", "預約時間", "客戶姓名", "聯絡方式類型", "聯絡方式", "方案名稱", "時長(分鐘)", "狀態", "建立時間", "問卷內容"]

  /** `field.replace(/"/g, '""')`. */
  function EscapeQuotes(s: string): (r: string)
    ensures |r| >= |s|
    ensures Quote !in s ==> r == s
  {
    if s == [] then [] else EscapeChar(s[0]) + EscapeQuotes(s[1..])
  }

  /** One character of the escaped text: a quote is doubled. */
  function EscapeChar(c: char): string
  {
    if c == Quote then [Quote, Quote] else [c]
  }

  /** A field as written: `"` + escaped text + `"`. */
  function QuoteField(s: string): (r: string)
    ensures |r| >= 2 && r[0] == Quote && r[|r| - 1] == Quote
  {
    [Quote] + EscapeQuotes(s) + [Quote]
  }

  /** `parts.join(sep)`: empty for no parts; otherwise at least as long as the
      first part and beginning with its first character. */
  function Join(parts: seq<string>, sep: char): (r: string)
    ensures |parts| == 0 ==> r == []
    ensures |parts| > 0 ==> |r| >= |parts[0]| && (parts[0] != [] ==> r[0] == parts[0][0])
  {
    if |parts| == 0 then []
    else if |parts| == 1 then parts[0]
    else parts[0] + [sep] + Join(parts[1..], sep)
  }

  /** `row.map(quote).join(',')`: empty exactly for a row of no fields, and
      otherwise opening with a double quote. */
  function EncodeRow(row: seq<string>): (r: string)
    ensures r == [] <==> |row| == 0
    ensures |row| > 0 ==> r[0] == Quote
  {
    Join(QuoteAll(row), ',')
  }

  function QuoteAll(row: seq<string>): (r: seq<string>)
    ensures |r| == |row|
    ensures forall i :: 0 <= i < |row| ==> r[i] == QuoteField(row[i])
  {
    if row == [] then [] else [QuoteField(row[0])] + QuoteAll(row[1..])
  }

  /** `rows.map(encodeRow).join('\n')`: empty for no rows; a text whose first
      row has fields opens with a double quote. */
  function EncodeRows(rows: seq<seq<string>>): (r: string)
    ensures |rows| == 0 ==> r == []
    ensures |rows| > 0 && rows[0] != [] ==> |r| > 0 && r[0] == Quote
  {
    var parts := EncodeAll(rows);
    assert |rows| > 0 ==> parts[0] == EncodeRow(rows[0]);
    Join(parts, '\n')
  }

  function EncodeAll(rows: seq<seq<string>>): (r: seq<string>)
    ensures |r| == |rows|
    ensures forall i :: 0 <= i < |rows| ==> r[i] == EncodeRow(rows[i])
  {
    if rows == [] then [] else [EncodeRow(rows[0])] + EncodeAll(rows[1..])
  }

  /** `convertBookingsToCSV`, from the rows of already formatted field texts. */
  function ConvertBookingsToCsv(rows: seq<seq<string>>): (csv: string)
    ensures |csv| > 0 && csv[0] == ByteOrderMark
    ensures Decode(csv) == Some([Headers] + rows)
  {
    ReadRowsRoundTrip([Headers] + rows);
    DecodeMarked(EncodeRows([Headers] + rows), [Headers] + rows);
    [ByteOrderMark] + EncodeRows([Headers] + rows)
  }

  // ---- Reading the format back ----

  /** The text of a quoted field after its opening quote, up to the closing
      quote, with each `""` read as `"`; also returns what follows the closing quote. */
  function ReadQuoted(s: string): (r: Option<(string, string)>)
    ensures r.Some? ==> |r.value.1| < |s|
  {
    if s == [] then None
    else if s[0] == Quote then
      if |s| >= 2 && s[1] == Quote then
        match ReadQuoted(s[2..])
        case None => None
        case Some((text, rest)) => Some(([Quote] + text, rest))
      else Some(([], s[1..]))
    else
      match ReadQuoted(s[1..])
      case None => None
      case Some((text, rest)) => Some(([s[0]] + text, rest))
  }

  /** One or more quoted fields separated by ',', up to a newline or the end. */
  function ReadFields(s: string): (r: Option<(seq<string>, string)>)
    ensures r.Some? ==> |r.value.1| < |s|
    decreases |s|
  {
    if s == [] || s[0] != Quote then None
    else
      match ReadQuoted(s[1..])
      case None => None
      case Some((field, rest)) =>
        if rest == [] || rest[0] == '\n' then Some(([field], rest))
        else if rest[0] == ',' then
          match ReadFields(rest[1..])
          case None => None
          case Some((fields, rest')) => Some(([field] + fields, rest'))
        else None
  }

  /** One row: nothing before a newline or the end is a row of no fields. */
  function ReadRow(s: string): (r: Option<(seq<string>, string)>)
    ensures r.Some? ==> |r.value.1| <= |s|
  {
    if s == [] || s[0] == '\n' then Some(([], s)) else ReadFields(s)
  }

  /** Newline-separated rows up to the end of the text. */
  function ReadRows(s: string): Option<seq<seq<string>>>
    decreases |s|
  {
    match ReadRow(s)
    case None => None
    case Some((row, rest)) =>
      if rest == [] then Some([row])
      else if rest[0] == '\n' then
        match ReadRows(rest[1..])
        case None => None
        case Some(rows) => Some([row] + rows)
      else None
  }

  /** The rows of an exported text, which must start with the byte-order mark. */
  function Decode(csv: string): Option<seq<seq<string>>>
  {
    if csv != [] && csv[0] == ByteOrderMark then ReadRows(csv[1..]) else None
  }

  // ---- Round trips ----

  /** A doubled quote reads as one quote in front of what follows it. */
  lemma ReadQuotedDoubled(tail: string, text: string, t: string)
    requires ReadQuoted(tail) == Some((text, t))
    ensures ReadQuoted([Quote, Quote] + tail) == Some(([Quote] + text, t))
  {
    assert ([Quote, Quote] + tail)[2..] == tail;
  }

  /** Any other character reads as itself in front of what follows it. */
  lemma ReadQuotedPlain(c: char, tail: string, text: string, t: string)
    requires c != Quote
    requires ReadQuoted(tail) == Some((text, t))
    ensures ReadQuoted([c] + tail) == Some(([c] + text, t))
  {
    assert ([c] + tail)[1..] == tail;
  }

  /** Concatenation regroups. */
  lemma Regroup3(a: string, b: string, c: string)
    ensures (a + b) + c == a + (b + c)
  {
  }

  /** The escaped text and closing quote, split after the first character. */
  lemma EscapedSplit(text: string, t: string)
    requires text != []
    ensures EscapeQuotes(text) + [Quote] + t
         == EscapeChar(text[0]) + (EscapeQuotes(text[1..]) + [Quote] + t)
  {
    var e, r := EscapeChar(text[0]), EscapeQuotes(text[1..]);
    assert EscapeQuotes(text) == e + r;
    Regroup3(e, r, [Quote] + t);
    assert (e + r) + [Quote] + t == (e + r) + ([Quote] + t);
    assert r + [Quote] + t == r + ([Quote] + t);
  }

  lemma {:induction false} ReadQuotedRoundTrip(text: string, t: string)
    requires t == [] || t[0] != Quote
    ensures ReadQuoted(EscapeQuotes(text) + [Quote] + t) == Some((text, t))
  {
    if text == [] {
      var s := [Quote] + t;
      assert EscapeQuotes(text) + [Quote] + t == s;
      assert s[1..] == t;
    } else {
      ReadQuotedRoundTrip(text[1..], t);
      var tail := EscapeQuotes(text[1..]) + [Quote] + t;
      EscapedSplit(text, t);
      if text[0] == Quote {
        ReadQuotedDoubled(tail, text[1..], t);
      } else {
        ReadQuotedPlain(text[0], tail, text[1..], t);
      }
      assert [text[0]] + text[1..] == text;
    }
  }

  /** Reading a quoted field followed by `rest` yields the field and `rest`. */
  lemma ReadFieldsFirst(field: string, rest: string)
    requires rest == [] || rest[0] != Quote
    ensures ReadQuoted((QuoteField(field) + rest)[1..]) == Some((field, rest))
  {
    assert (QuoteField(field) + rest)[1..] == EscapeQuotes(field) + [Quote] + rest;
    ReadQuotedRoundTrip(field, rest);
  }

  /** A row of two or more fields is its first field, a comma, and the rest. */
  lemma EncodeRowCons(row: seq<string>)
    requires |row| > 1
    ensures EncodeRow(row) == QuoteField(row[0]) + [','] + EncodeRow(row[1..])
  {
    assert QuoteAll(row)[1..] == QuoteAll(row[1..]);
  }

  /** A quoted field followed by a newline or the end reads as a row of that one field. */
  lemma ReadLastField(field: string, t: string)
    requires t == [] || t[0] == '\n'
    ensures ReadFields(QuoteField(field) + t) == Some(([field], t))
  {
    ReadFieldsFirst(field, t);
  }

  /** A quoted field followed by a comma reads as that field followed by the
      fields read after the comma. */
  lemma ReadNextField(field: string, more: string, fields: seq<string>, t: string)
    requires ReadFields(more) == Some((fields, t))
    ensures ReadFields(QuoteField(field) + ([','] + more)) == Some(([field] + fields, t))
  {
    var rest := [','] + more;
    ReadFieldsFirst(field, rest);
    assert rest[1..] == more;
  }

  /** The one-field case of `ReadFieldsRoundTrip`. */
  lemma ReadSingleFieldRow(row: seq<string>, t: string)
    requires |row| == 1
    requires t == [] || t[0] == '\n'
    ensures ReadFields(EncodeRow(row) + t) == Some((row, t))
  {
    assert QuoteAll(row) == [QuoteField(row[0])];
    ReadLastField(row[0], t);
    assert [row[0]] == row;
  }

  /** `(a + [','] + c) + d == a + ([','] + (c + d))` — regrouping an encoded row. */
  lemma Regroup(a: string, c: string, d: string)
    ensures (a + [','] + c) + d == a + ([','] + (c + d))
  {
  }

  /** The step case of `ReadFieldsRoundTrip`, given the fields after the first. */
  lemma ReadConsFieldRow(row: seq<string>, t: string)
    requires |row| > 1
    requires ReadFields(EncodeRow(row[1..]) + t) == Some((row[1..], t))
    ensures ReadFields(EncodeRow(row) + t) == Some((row, t))
  {
    var more := EncodeRow(row[1..]) + t;
    EncodeRowCons(row);
    Regroup(QuoteField(row[0]), EncodeRow(row[1..]), t);
    ReadNextField(row[0], more, row[1..], t);
    assert [row[0]] + row[1..] == row;
  }

  lemma {:induction false} ReadFieldsRoundTrip(row: seq<string>, t: string)
    requires |row| > 0
    requires t == [] || t[0] == '\n'
    ensures ReadFields(EncodeRow(row) + t) == Some((row, t))
  {
    if |row| == 1 {
      ReadSingleFieldRow(row, t);
    } else {
      ReadFieldsRoundTrip(row[1..], t);
      ReadConsFieldRow(row, t);
    }
  }

  lemma ReadRowRoundTrip(row: seq<string>, t: string)
    requires t == [] || t[0] == '\n'
    ensures ReadRow(EncodeRow(row) + t) == Some((row, t))
  {
    if |row| == 0 {
      assert EncodeRow(row) + t == t;
    } else {
      ReadFieldsRoundTrip(row, t);
      assert EncodeRow(row)[0] == Quote;
    }
  }

  /** Several rows are written as the first row, a newline and the rest. */
  lemma EncodeRowsCons(rows: seq<seq<string>>)
    requires |rows| > 1
    ensures EncodeRows(rows) == EncodeRow(rows[0]) + ['\n'] + EncodeRows(rows[1..])
  {
    assert EncodeAll(rows)[1..] == EncodeAll(rows[1..]);
  }

  /** A text of one row is that row, encoded. */
  lemma EncodeRowsSingle(rows: seq<seq<string>>)
    requires |rows| == 1
    ensures EncodeRows(rows) == EncodeRow(rows[0])
  {
    assert EncodeAll(rows) == [EncodeRow(rows[0])];
  }

  /** An encoded row alone reads back as a text of that one row. */
  lemma ReadLastRow(row: seq<string>)
    ensures ReadRows(EncodeRow(row)) == Some([row])
  {
    ReadRowRoundTrip(row, []);
    assert EncodeRow(row) + [] == EncodeRow(row);
  }

  /** An encoded row, a newline and a text of rows read back as that row in
      front of the rows. */
  lemma ReadRowThenRows(row: seq<string>, rest: string, rows: seq<seq<string>>)
    requires ReadRows(rest) == Some(rows)
    ensures ReadRows(EncodeRow(row) + ['\n'] + rest) == Some([row] + rows)
  {
    var t := ['\n'] + rest;
    assert EncodeRow(row) + ['\n'] + rest == EncodeRow(row) + t;
    ReadRowRoundTrip(row, t);
    assert t[1..] == rest;
  }

  /** A text of rows behind the byte-order mark decodes to those rows. */
  lemma DecodeMarked(body: string, rows: seq<seq<string>>)
    requires ReadRows(body) == Some(rows)
    ensures Decode([ByteOrderMark] + body) == Some(rows)
  {
    assert ([ByteOrderMark] + body)[1..] == body;
  }

  /** The one-row case of `ReadRowsRoundTrip`. */
  lemma ReadSingleRow(rows: seq<seq<string>>)
    requires |rows| == 1
    ensures ReadRows(EncodeRows(rows)) == Some(rows)
  {
    EncodeRowsSingle(rows);
    ReadLastRow(rows[0]);
    assert [rows[0]] == rows;
  }

  /** The step case of `ReadRowsRoundTrip`, given the rows after the first. */
  lemma ReadConsRow(rows: seq<seq<string>>)
    requires |rows| > 1
    requires ReadRows(EncodeRows(rows[1..])) == Some(rows[1..])
    ensures ReadRows(EncodeRows(rows)) == Some(rows)
  {
    EncodeRowsCons(rows);
    ReadRowThenRows(rows[0], EncodeRows(rows[1..]), rows[1..]);
    assert [rows[0]] + rows[1..] == rows;
  }

  /** Reading the encoded rows gives the rows back. */
  lemma {:induction false} ReadRowsRoundTrip(rows: seq<seq<string>>)
    requires |rows| > 0
    ensures ReadRows(EncodeRows(rows)) == Some(rows)
  {
    if |rows| == 1 {
      ReadSingleRow(rows);
    } else {
      ReadRowsRoundTrip(rows[1..]);
      ReadConsRow(rows);
    }
  }
}
