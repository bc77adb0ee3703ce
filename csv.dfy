/** The force-quoted CSV form the exports write (`quote_char: '"'`,
    `force_quotes: true`): every field is enclosed in double quotes, a double
    quote inside a field is written twice, fields are separated by commas and
    every record ends in a line feed. This is the quoted form of section 2 of
    RFC 4180 (rules 5 to 7) with LF instead of CRLF as record terminator.

    `ParseRecords` is an independent reader for that form; the round-trip
    lemmas show that it gives back exactly the fields that were written. */
module Csv {
  import opened Wrappers

  /** Doubles every double quote of a field (RFC 4180 section 2, rule 7). */
  function Escape(f: string): (r: string)
    ensures |r| >= |f|
  {
    if f == [] then []
    else (if f[0] == '"' then "\"\"" else [f[0]]) + Escape(f[1..])
  }

  /** A field without double quotes is written as it is, between quotes. */
  lemma {:induction false} EscapePlain(f: string)
    requires '"' !in f
    ensures Escape(f) == f
  {
    if f != [] {
      EscapePlain(f[1..]);
      assert f == [f[0]] + f[1..];
    }
  }

  /** One force-quoted field. */
  function QuoteField(f: string): (r: string)
    ensures |r| >= 2 && r[0] == '"' && r[|r| - 1] == '"'
  {
    "\"" + Escape(f) + "\""
  }

  /** Quoted fields separated by commas. */
  function JoinFields(fs: seq<string>): (r: string)
    ensures fs != [] ==> |r| >= 2 && r[0] == '"' && r[|r| - 1] == '"'
  {
    if fs == [] then ""
    else if |fs| == 1 then QuoteField(fs[0])
    else QuoteField(fs[0]) + "," + JoinFields(fs[1..])
  }

  /** One record as `csv << fields` writes it. */
  function Line(fs: seq<string>): (r: string)
    requires |fs| >= 1
    ensures |r| >= 3 && r[0] == '"' && r[|r| - 2] == '"' && r[|r| - 1] == '\n'
  {
    JoinFields(fs) + "\n"
  }

  lemma ThreeFields(a: string, b: string, c: string)
    ensures Line([a, b, c]) == QuoteField(a) + "," + QuoteField(b) + "," + QuoteField(c) + "\n"
  {
    assert [a, b, c][1..] == [b, c];
    assert [b, c][1..] == [c];
    assert JoinFields([b, c]) == QuoteField(b) + "," + QuoteField(c);
  }

  predicate AllNonEmpty(rows: seq<seq<string>>) {
    forall i :: 0 <= i < |rows| ==> |rows[i]| >= 1
  }

  /** Records written one after another. */
  function Lines(rows: seq<seq<string>>): string
    requires AllNonEmpty(rows)
  {
    if rows == [] then "" else Line(rows[0]) + Lines(rows[1..])
  }

  lemma LinesOne(row: seq<string>)
    requires |row| >= 1
    ensures Lines([row]) == Line(row)
  {
    assert [row][1..] == [];
  }

  lemma {:induction false} LinesAppend(rows: seq<seq<string>>, row: seq<string>)
    requires AllNonEmpty(rows) && |row| >= 1
    ensures AllNonEmpty(rows + [row])
    ensures Lines(rows + [row]) == Lines(rows) + Line(row)
  {
    if rows == [] {
      assert rows + [row] == [row];
    } else {
      assert (rows + [row])[1..] == rows[1..] + [row];
      LinesAppend(rows[1..], row);
    }
  }

  // ---------------------------------------------------------------------
  // Reading

  /** Reads the inside of a quoted field, from just after its opening quote:
      the field's contents and what follows the closing quote. */
  function ParseBody(s: string): (r: Option<(string, string)>)
    ensures r.Some? ==> |r.value.1| < |s|
  {
    if s == [] then None
    else if s[0] == '"' then
      if |s| >= 2 && s[1] == '"' then
        match ParseBody(s[2..])
        case None => None
        case Some((c, rest)) => Some(("\"" + c, rest))
      else Some(("", s[1..]))
    else
      match ParseBody(s[1..])
      case None => None
      case Some((c, rest)) => Some(([s[0]] + c, rest))
  }

  /** Reads one record: quoted fields separated by commas, then a line feed. */
  function ParseRecord(s: string): (r: Option<(seq<string>, string)>)
    ensures r.Some? ==> |r.value.1| < |s| && |r.value.0| >= 1
    decreases |s|
  {
    if s == [] || s[0] != '"' then None
    else
      match ParseBody(s[1..])
      case None => None
      case Some((f, rest)) =>
        if rest == [] then None
        else if rest[0] == '\n' then Some(([f], rest[1..]))
        else if rest[0] == ',' then
          match ParseRecord(rest[1..])
          case None => None
          case Some((fs, rest2)) => Some(([f] + fs, rest2))
        else None
  }

  /** Reads records until the input is used up. */
  function ParseRecords(s: string): (r: Option<seq<seq<string>>>)
    ensures r.Some? ==> AllNonEmpty(r.value)
    decreases |s|
  {
    if s == [] then Some([])
    else
      match ParseRecord(s)
      case None => None
      case Some((fs, rest)) =>
        match ParseRecords(rest)
        case None => None
        case Some(rs) => Some([fs] + rs)
  }

  lemma {:induction false} ParseBodyEscape(f: string, rest: string)
    requires rest == [] || rest[0] != '"'
    ensures ParseBody(Escape(f) + "\"" + rest) == Some((f, rest))
  {
    var s := Escape(f) + "\"" + rest;
    if f == [] {
      assert s == "\"" + rest;
      assert s[1..] == rest;
    } else if f[0] == '"' {
      assert s == "\"\"" + (Escape(f[1..]) + "\"" + rest);
      assert s[2..] == Escape(f[1..]) + "\"" + rest;
      ParseBodyEscape(f[1..], rest);
      assert f == "\"" + f[1..];
    } else {
      assert s == [f[0]] + (Escape(f[1..]) + "\"" + rest);
      assert s[1..] == Escape(f[1..]) + "\"" + rest;
      ParseBodyEscape(f[1..], rest);
      assert f == [f[0]] + f[1..];
    }
  }

  /** A quoted field followed by anything but a quote reads back as the field. */
  lemma QuotedThen(f: string, after: string)
    requires after == [] || after[0] != '"'
    ensures var s := QuoteField(f) + after;
            s != [] && s[0] == '"' && ParseBody(s[1..]) == Some((f, after))
  {
    var s := QuoteField(f) + after;
    assert s == "\"" + (Escape(f) + "\"" + after);
    assert s[1..] == Escape(f) + "\"" + after;
    ParseBodyEscape(f, after);
  }

  lemma ParseLastField(f: string, rest: string)
    ensures ParseRecord(Line([f]) + rest) == Some(([f], rest))
  {
    var after := "\n" + rest;
    assert Line([f]) + rest == QuoteField(f) + after;
    QuotedThen(f, after);
    assert after[1..] == rest;
  }

  lemma ParseNextField(fs: seq<string>, rest: string)
    requires |fs| >= 2
    requires ParseRecord(Line(fs[1..]) + rest) == Some((fs[1..], rest))
    ensures ParseRecord(Line(fs) + rest) == Some((fs, rest))
  {
    var after := "," + (Line(fs[1..]) + rest);
    assert Line(fs) + rest == QuoteField(fs[0]) + after;
    QuotedThen(fs[0], after);
    assert after[1..] == Line(fs[1..]) + rest;
    assert fs == [fs[0]] + fs[1..];
  }

  lemma {:induction false} ParseLine(fs: seq<string>, rest: string)
    requires |fs| >= 1
    ensures ParseRecord(Line(fs) + rest) == Some((fs, rest))
  {
    if |fs| == 1 {
      assert fs == [fs[0]];
      ParseLastField(fs[0], rest);
    } else {
      ParseLine(fs[1..], rest);
      ParseNextField(fs, rest);
    }
  }

  lemma ParseRecordsCons(s: string, fs: seq<string>, rest: string, rs: seq<seq<string>>)
    requires s != [] && ParseRecord(s) == Some((fs, rest)) && ParseRecords(rest) == Some(rs)
    ensures ParseRecords(s) == Some([fs] + rs)
  {
  }

  /** Reading back what was written gives the records that were written. */
  lemma {:induction false} ParseLines(rows: seq<seq<string>>)
    requires AllNonEmpty(rows)
    ensures ParseRecords(Lines(rows)) == Some(rows)
  {
    if rows != [] {
      var rest := Lines(rows[1..]);
      ParseLine(rows[0], rest);
      ParseLines(rows[1..]);
      ParseRecordsCons(Lines(rows), rows[0], rest, rows[1..]);
      assert rows == [rows[0]] + rows[1..];
    }
  }
}
