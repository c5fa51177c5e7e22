/**
 * The first record that one `Read` call of a fresh `encoding/csv` Reader returns,
 * with the Reader's default settings (comma separator, no comment character,
 * strict quoting, no trimming of leading space), over an in-memory string.
 *
 * The Reader reads lines ending in '\n'. It turns "\r\n" into "\n", drops a '\r'
 * that ends the input, skips empty lines before the record and reports end of
 * input when nothing else is left. A field that starts with '"' is quoted: inside
 * it "" stands for one quote, commas and line breaks are ordinary text, and the
 * closing quote must be followed by a comma, a line break or the end of the input.
 * A quote anywhere in an unquoted field is an error.
 */
module Csv {

  import opened Wrappers
  import Strings

  /** `csv.ErrBareQuote`, `csv.ErrQuote` (both inside a `*csv.ParseError`) and `io.EOF`. */
  datatype ReadError = ErrBareQuote | ErrQuote | EOF

  /** Drops the '\r' that may end the input. */
  function DropTrailingCr(s: string): (r: string)
    ensures forall c :: c in r ==> c in s
  {
    if |s| > 0 && s[|s| - 1] == '\r' then s[..|s| - 1] else s
  }

  /** Replaces every "\r\n" by "\n". */
  function CrLfToLf(s: string): (r: string)
    ensures forall c :: c in r ==> c in s
    decreases |s|
  {
    if s == [] then []
    else if |s| >= 2 && s[0] == '\r' && s[1] == '\n' then "\n" + CrLfToLf(s[2..])
    else [s[0]] + CrLfToLf(s[1..])
  }

  /** The input as the Reader's line reader hands it on. */
  function Normalize(s: string): string {
    CrLfToLf(DropTrailingCr(s))
  }

  /** The first record of `s`, or why there is none. */
  function Read(s: string): (r: Result<seq<string>, ReadError>)
    ensures r.Success? ==> |r.value| >= 1
    ensures '"' !in s ==> r.Success? || r == Failure(EOF)
  {
    Record(Normalize(s))
  }

  /** Skips empty lines, then parses the fields of the record that follows. */
  function Record(t: string): (r: Result<seq<string>, ReadError>)
    ensures r.Success? ==> |r.value| >= 1
    ensures '"' !in t ==> r.Success? || r == Failure(EOF)
    decreases |t|
  {
    if t == [] then Failure(EOF)
    else if t[0] == '\n' then Record(t[1..])
    else Fields(t)
  }

  /** Puts `field` in front of the fields that follow it, or passes their error on. */
  function Prepend(field: string, r: Result<seq<string>, ReadError>): (p: Result<seq<string>, ReadError>)
    ensures p.Success? <==> r.Success?
    ensures p.Success? ==> |p.value| == |r.value| + 1 && p.value[0] == field
  {
    match r
    case Success(fields) => Success([field] + fields)
    case Failure(e) => Failure(e)
  }

  /** The fields from a field boundary to the end of the record. */
  function Fields(t: string): (r: Result<seq<string>, ReadError>)
    ensures r.Success? ==> |r.value| >= 1
    ensures '"' !in t ==> r.Success?
    decreases |t|, 2
  {
    if t != [] && t[0] == '"' then Quoted(t[1..], []) else Unquoted(t, [])
  }

  /** An unquoted field whose text so far is `acc`. */
  function Unquoted(t: string, acc: string): (r: Result<seq<string>, ReadError>)
    ensures r.Success? ==> |r.value| >= 1
    ensures '"' !in t ==> r.Success?
    decreases |t|, 1
  {
    if t == [] || t[0] == '\n' then Success([acc])
    else if t[0] == ',' then Prepend(acc, Fields(t[1..]))
    else if t[0] == '"' then Failure(ErrBareQuote)
    else Unquoted(t[1..], acc + [t[0]])
  }

  /** A quoted field, past its opening quote, whose text so far is `acc`. */
  function Quoted(t: string, acc: string): (r: Result<seq<string>, ReadError>)
    ensures r.Success? ==> |r.value| >= 1
    decreases |t|, 1
  {
    if t == [] then Failure(ErrQuote)
    else if t[0] != '"' then Quoted(t[1..], acc + [t[0]])
    else if |t| == 1 || t[1] == '\n' then Success([acc])
    else if t[1] == '"' then Quoted(t[2..], acc + ['"'])
    else if t[1] == ',' then Prepend(acc, Fields(t[2..]))
    else Failure(ErrQuote)
  }

  /** Text free of '\r' passes the line reader unchanged. */
  lemma {:induction false} NormalizeNoCr(s: string)
    requires '\r' !in s
    ensures Normalize(s) == s
  {
    CrLfToLfNoCr(s);
  }

  lemma {:induction false} CrLfToLfNoCr(s: string)
    requires '\r' !in s
    ensures CrLfToLf(s) == s
    decreases |s|
  {
    if s != [] {
      assert s == [s[0]] + s[1..];
      CrLfToLfNoCr(s[1..]);
    }
  }

  /** An unquoted stretch without quotes or line breaks is cut at its commas. */
  lemma {:induction false} UnquotedPlain(t: string, acc: string)
    requires '"' !in t && '\n' !in t
    ensures Unquoted(t, acc) == Success([acc + Strings.Split(t, ',')[0]] + Strings.Split(t, ',')[1..])
    decreases |t|
  {
    if t == [] {
      var parts := Strings.Split(t, ',');
      assert parts == [[]] && parts[0] == [] && parts[1..] == [];
      assert acc + parts[0] == acc;
      assert [acc] + [] == [acc];
    } else if t[0] == ',' {
      var rest := Strings.Split(t[1..], ',');
      UnquotedPlain(t[1..], []);
      assert [] + rest[0] == rest[0] && [rest[0]] + rest[1..] == rest;
      assert acc + [] == acc;
    } else {
      UnquotedPlain(t[1..], acc + [t[0]]);
      assert (acc + [t[0]]) + Strings.Split(t[1..], ',')[0] == acc + ([t[0]] + Strings.Split(t[1..], ',')[0]);
    }
  }

  /**
   * On input without quotes, line breaks or carriage returns the Reader
   * returns the pieces between the commas, empty ones included.
   */
  lemma ReadPlain(s: string)
    requires s != []
    requires '"' !in s && '\n' !in s && '\r' !in s
    ensures Read(s) == Success(Strings.Split(s, ','))
  {
    NormalizeNoCr(s);
    UnquotedPlain(s, []);
    var parts := Strings.Split(s, ',');
    assert [] + parts[0] == parts[0] && [parts[0]] + parts[1..] == parts;
  }

  /** `""` for every quote of a field. */
  function Escape(f: string): string
    decreases |f|
  {
    if f == [] then []
    else (if f[0] == '"' then "\"\"" else [f[0]]) + Escape(f[1..])
  }

  /** A field written with quotes around it, as `csv.Writer` does when it must. */
  function QuoteField(f: string): string {
    "\"" + Escape(f) + "\""
  }

  /** A record written with every field quoted, fields separated by commas. */
  function WriteRecord(fields: seq<string>): string {
    Strings.Join(seq(|fields|, i requires 0 <= i < |fields| => QuoteField(fields[i])), ",")
  }

  /** Inside quotes, a character other than '"' is taken as it is. */
  lemma QuotedPlainStep(c: char, tail: string, acc: string)
    requires c != '"'
    ensures Quoted([c] + tail, acc) == Quoted(tail, acc + [c])
  {
    assert ([c] + tail)[1..] == tail;
  }

  /** Inside quotes, a doubled quote stands for one quote. */
  lemma QuotedDoubledStep(tail: string, acc: string)
    ensures Quoted("\"\"" + tail, acc) == Quoted(tail, acc + ['"'])
  {
    var t := "\"\"" + tail;
    assert t[0] == '"' && t[1] == '"' && |t| >= 2 && t[2..] == tail;
  }

  lemma {:induction false} QuotedEscape(f: string, rest: string, acc: string)
    ensures Quoted(Escape(f) + rest, acc) == Quoted(rest, acc + f)
    decreases |f|
  {
    if f == [] {
      assert Escape(f) + rest == rest && acc + f == acc;
    } else {
      var tail := Escape(f[1..]) + rest;
      QuotedEscape(f[1..], rest, acc + [f[0]]);
      assert (acc + [f[0]]) + f[1..] == acc + f;
      if f[0] == '"' {
        assert Escape(f) + rest == "\"\"" + tail;
        QuotedDoubledStep(tail, acc);
      } else {
        assert Escape(f) + rest == [f[0]] + tail;
        QuotedPlainStep(f[0], tail, acc);
      }
    }
  }

  lemma {:induction false} EscapeExcludes(f: string, c: char)
    requires c != '"' && c !in f
    ensures c !in Escape(f)
    decreases |f|
  {
    if f != [] {
      EscapeExcludes(f[1..], c);
    }
  }

  lemma {:induction false} FieldsWritten(fields: seq<string>)
    requires |fields| >= 1
    ensures Fields(WriteRecord(fields)) == Success(fields)
    decreases |fields|
  {
    var quoted := seq(|fields|, i requires 0 <= i < |fields| => QuoteField(fields[i]));
    var f := fields[0];
    if |fields| == 1 {
      var t := QuoteField(f);
      assert WriteRecord(fields) == t;
      assert t[0] == '"' && t[1..] == Escape(f) + "\"";
      QuotedEscape(f, "\"", []);
      assert [] + f == f;
      assert Quoted("\"", f) == Success([f]);
      assert Fields(t) == Quoted(t[1..], []) && fields == [f];
    } else {
      var tail := seq(|fields| - 1, i requires 0 <= i < |fields| - 1 => QuoteField(fields[1..][i]));
      assert quoted[1..] == tail;
      var rest := WriteRecord(fields[1..]);
      var t := WriteRecord(fields);
      assert t == QuoteField(f) + "," + rest;
      assert t[1..] == Escape(f) + ("\"," + rest);
      QuotedEscape(f, "\"," + rest, []);
      assert ("\"," + rest)[2..] == rest;
      assert [] + f == f;
      FieldsWritten(fields[1..]);
      assert fields == [f] + fields[1..];
    }
  }

  /**
   * Writing a record with every field quoted and reading it back gives the
   * fields, commas, quotes and line breaks inside them included. Fields with a
   * '\r' are excluded because the line reader rewrites "\r\n" even inside quotes.
   */
  lemma ReadWriteRoundTrip(fields: seq<string>)
    requires |fields| >= 1
    requires forall i :: 0 <= i < |fields| ==> '\r' !in fields[i]
    ensures Read(WriteRecord(fields)) == Success(fields)
  {
    var quoted := seq(|fields|, i requires 0 <= i < |fields| => QuoteField(fields[i]));
    forall i | 0 <= i < |fields|
      ensures '\r' !in quoted[i]
    {
      EscapeExcludes(fields[i], '\r');
    }
    Strings.JoinExcludes(quoted, ",", '\r');
    NormalizeNoCr(WriteRecord(fields));
    assert WriteRecord(fields)[0] == '"' by {
      assert quoted[0][0] == '"';
      if |fields| > 1 {
        assert WriteRecord(fields) == quoted[0] + "," + Strings.Join(quoted[1..], ",");
      }
    }
    FieldsWritten(fields);
  }
}
