/** The parts of Python's `csv` module the pipeline uses, under its default
    ("excel") dialect with the separator chosen by the caller: reading one line
    into fields, and writing a row with every field quoted (`QUOTE_ALL`). */
module Csv {

  const Quote: char := '"'

  /** `\r\n`, the writer's record terminator. */
  const LineTerminator: string := "\r\n"

  /** The states of the reader's state machine that a single line without line
      breaks can reach (no escape character, `strict` off, no initial-space skipping). */
  datatype ReadState = StartField | InField | InQuotedField | QuoteInQuotedField

  /** Feeds the characters of `s` to the reader in state `state`, with `field` the
      field being built and `fields` those already saved. At the end of the input the
      pending field is saved whatever the state: an empty one after a trailing
      separator, and the text so far of a quoted field that was never closed. */
  function Scan(s: string, sep: char, state: ReadState, field: string, fields: seq<string>): (r: seq<string>)
    ensures |r| > |fields|
    decreases |s|
  {
    if s == [] then fields + [field]
    else
      var c, rest := s[0], s[1..];
      match state
      case StartField =>
        if c == Quote then Scan(rest, sep, InQuotedField, field, fields)
        else if c == sep then Scan(rest, sep, StartField, [], fields + [field])
        else Scan(rest, sep, InField, field + [c], fields)
      case InField =>
        if c == sep then Scan(rest, sep, StartField, [], fields + [field])
        else Scan(rest, sep, InField, field + [c], fields)
      case InQuotedField =>
        if c == Quote then Scan(rest, sep, QuoteInQuotedField, field, fields)
        else Scan(rest, sep, InQuotedField, field + [c], fields)
      case QuoteInQuotedField =>
        if c == Quote then Scan(rest, sep, InQuotedField, field + [c], fields)
        else if c == sep then Scan(rest, sep, StartField, [], fields + [field])
        else Scan(rest, sep, InField, field + [c], fields)
  }

  /** `next(csv.reader(io.StringIO(line), delimiter=sep, quotechar='"'))` for a
      line that holds no line break. An empty line has no record (`next` raises
      `StopIteration`), so the line must be non-empty. */
  function ReadRecord(line: string, sep: char): (fields: seq<string>)
    requires line != [] && sep != Quote
    ensures |fields| >= 1
  {
    Scan(line, sep, StartField, [], [])
  }

  /** The reference splitting: the pieces of `s` between occurrences of `sep`. */
  function SplitOn(s: string, sep: char): (pieces: seq<string>)
    ensures |pieces| >= 1
    ensures forall k | 0 <= k < |pieces| :: sep !in pieces[k]
  {
    if s == [] then [[]]
    else
      var rest := SplitOn(s[1..], sep);
      if s[0] == sep then [[]] + rest else [[s[0]] + rest[0]] + rest[1..]
  }

  /** Joining the pieces with `sep` gives back the string that was split. */
  function Join(pieces: seq<string>, sep: char): string
    requires |pieces| >= 1
  {
    if |pieces| == 1 then pieces[0] else pieces[0] + [sep] + Join(pieces[1..], sep)
  }

  lemma {:induction false} JoinSplitOn(s: string, sep: char)
    ensures Join(SplitOn(s, sep), sep) == s
  {
    if s != [] {
      var rest := SplitOn(s[1..], sep);
      JoinSplitOn(s[1..], sep);
      if s[0] != sep {
        if |rest| > 1 {
          assert rest[1..][0] == rest[1];
          assert rest == [rest[0]] + rest[1..];
        }
      }
    }
  }

  predicate NoQuoteAtStart(pieces: seq<string>) {
    forall k | 0 <= k < |pieces| :: pieces[k] == [] || pieces[k][0] != Quote
  }

  /** Inside an unquoted field every character but the separator is literal. */
  lemma {:induction false} ScanUnquotedField(s: string, sep: char, field: string, fields: seq<string>)
    requires sep != Quote
    requires NoQuoteAtStart(SplitOn(s, sep)[1..])
    ensures Scan(s, sep, InField, field, fields) == fields + [field + SplitOn(s, sep)[0]] + SplitOn(s, sep)[1..]
    decreases |s|, 2
  {
    if s != [] {
      var rest := SplitOn(s[1..], sep);
      if s[0] == sep {
        assert SplitOn(s, sep) == [[]] + rest;
        ScanFieldStarts(s[1..], sep, fields + [field]);
        assert field + [] == field;
      } else {
        assert SplitOn(s, sep)[1..] == rest[1..];
        ScanUnquotedField(s[1..], sep, field + [s[0]], fields);
        assert field + [s[0]] + rest[0] == field + ([s[0]] + rest[0]);
      }
    } else {
      assert field + [] == field;
    }
  }

  /** Dropping the first piece keeps every remaining piece quote-free at its start. */
  lemma NoQuoteAtStartTail(pieces: seq<string>)
    requires |pieces| >= 1 && NoQuoteAtStart(pieces)
    ensures NoQuoteAtStart(pieces[1..])
  {
    forall k | 0 <= k < |pieces| - 1 ensures pieces[1..][k] == [] || pieces[1..][k][0] != Quote {
      assert pieces[1..][k] == pieces[k + 1];
    }
  }

  /** At the start of a field, a field that does not open with a quote is read as
      the plain piece up to the next separator. */
  lemma {:induction false} ScanFieldStarts(s: string, sep: char, fields: seq<string>)
    requires sep != Quote
    requires NoQuoteAtStart(SplitOn(s, sep))
    ensures Scan(s, sep, StartField, [], fields) == fields + SplitOn(s, sep)
    decreases |s|, 1
  {
    if s != [] {
      if s[0] == sep {
        ScanEmptyField(s, sep, fields);
      } else {
        ScanPlainField(s, sep, fields);
      }
    }
  }

  /** A separator at the start of a field closes an empty field. */
  lemma {:induction false} ScanEmptyField(s: string, sep: char, fields: seq<string>)
    requires sep != Quote && s != [] && s[0] == sep
    requires NoQuoteAtStart(SplitOn(s, sep))
    ensures Scan(s, sep, StartField, [], fields) == fields + SplitOn(s, sep)
    decreases |s|, 0
  {
    var p := SplitOn(s, sep);
    NoQuoteAtStartTail(p);
    assert Scan(s, sep, StartField, [], fields) == Scan(s[1..], sep, StartField, [], fields + [[]]);
    assert p[1..] == SplitOn(s[1..], sep);
    ScanFieldStarts(s[1..], sep, fields + [[]]);
  }

  /** Any other first character opens an unquoted field. */
  lemma {:induction false} ScanPlainField(s: string, sep: char, fields: seq<string>)
    requires sep != Quote && s != [] && s[0] != sep
    requires NoQuoteAtStart(SplitOn(s, sep))
    ensures Scan(s, sep, StartField, [], fields) == fields + SplitOn(s, sep)
    decreases |s|, 0
  {
    var p := SplitOn(s, sep);
    var rest := SplitOn(s[1..], sep);
    SplitOnPlain(s, sep);
    NoQuoteAtStartTail(p);
    ScanOpensField(s, sep, fields);
    ScanUnquotedField(s[1..], sep, [s[0]], fields);
    ConcatAssoc(fields, [[s[0]] + rest[0]], rest[1..]);
  }

  /** A first character other than the separator begins the first piece. */
  lemma SplitOnPlain(s: string, sep: char)
    requires s != [] && s[0] != sep
    ensures SplitOn(s, sep) == [[s[0]] + SplitOn(s[1..], sep)[0]] + SplitOn(s[1..], sep)[1..]
    ensures SplitOn(s, sep)[1..] == SplitOn(s[1..], sep)[1..]
    ensures SplitOn(s, sep)[0][0] == s[0]
  {
  }

  /** A first character that is neither a quote nor the separator opens an unquoted field. */
  lemma ScanOpensField(s: string, sep: char, fields: seq<string>)
    requires s != [] && s[0] != sep && s[0] != Quote
    ensures Scan(s, sep, StartField, [], fields) == Scan(s[1..], sep, InField, [s[0]], fields)
  {
    assert [] + [s[0]] == [s[0]];
  }

  lemma ConcatAssoc<T>(a: seq<T>, b: seq<T>, c: seq<T>)
    ensures a + b + c == a + (b + c)
  {
  }

  /** When no field of a line opens with a quote (in particular when the line holds
      no quote at all), the reader's fields are exactly the separator-delimited pieces:
      a quote that is not at the start of a field is an ordinary character. */
  lemma UnquotedRecord(line: string, sep: char)
    requires line != [] && sep != Quote
    requires NoQuoteAtStart(SplitOn(line, sep))
    ensures ReadRecord(line, sep) == SplitOn(line, sep)
  {
    ScanFieldStarts(line, sep, []);
  }

  lemma {:induction false} QuoteFreePieces(s: string, sep: char)
    requires Quote !in s
    ensures forall k | 0 <= k < |SplitOn(s, sep)| :: Quote !in SplitOn(s, sep)[k]
  {
    if s != [] {
      QuoteFreePieces(s[1..], sep);
    }
  }

  lemma QuoteFreeRecord(line: string, sep: char)
    requires line != [] && sep != Quote && Quote !in line
    ensures ReadRecord(line, sep) == SplitOn(line, sep)
  {
    QuoteFreePieces(line, sep);
    UnquotedRecord(line, sep);
  }

  /** The writer's escaping inside a quoted field: every quote is doubled. */
  function Escape(f: string): string {
    if f == [] then [] else (if f[0] == Quote then [Quote, Quote] else [f[0]]) + Escape(f[1..])
  }

  /** One field as written under `QUOTE_ALL`: wrapped in quotes, inner quotes doubled. */
  function QuoteField(f: string): string {
    [Quote] + Escape(f) + [Quote]
  }

  /** One row as `csvwriter.writerow` lays it out, without the record terminator. */
  function FormatRow(fields: seq<string>, sep: char): (row: string)
    requires |fields| >= 1
    ensures |row| >= 2 && row[0] == Quote && row[|row| - 1] == Quote
  {
    if |fields| == 1 then QuoteField(fields[0])
    else QuoteField(fields[0]) + [sep] + FormatRow(fields[1..], sep)
  }

  /** Inside a quoted field, a doubled quote reads as one literal quote and the
      first single quote closes the field. */
  lemma {:induction false} ScanEscaped(f: string, rest: string, sep: char, field: string, fields: seq<string>)
    ensures Scan(Escape(f) + [Quote] + rest, sep, InQuotedField, field, fields)
         == Scan(rest, sep, QuoteInQuotedField, field + f, fields)
  {
    var s := Escape(f) + [Quote] + rest;
    if f == [] {
      assert s == [Quote] + rest;
      assert field + f == field;
    } else {
      var tail := Escape(f[1..]) + [Quote] + rest;
      if f[0] == Quote {
        assert s == [Quote] + ([Quote] + tail);
        assert Scan(s, sep, InQuotedField, field, fields) == Scan([Quote] + tail, sep, QuoteInQuotedField, field, fields);
        assert Scan([Quote] + tail, sep, QuoteInQuotedField, field, fields) == Scan(tail, sep, InQuotedField, field + [Quote], fields);
        ScanEscaped(f[1..], rest, sep, field + [Quote], fields);
      } else {
        assert s == [f[0]] + tail;
        assert Scan(s, sep, InQuotedField, field, fields) == Scan(tail, sep, InQuotedField, field + [f[0]], fields);
        ScanEscaped(f[1..], rest, sep, field + [f[0]], fields);
      }
      assert field + [f[0]] + f[1..] == field + f;
    }
  }

  /** Reading back a written row gives the row's fields, whatever characters they hold. */
  lemma {:induction false} ScanFormatted(fields: seq<string>, sep: char, saved: seq<string>)
    requires sep != Quote && |fields| >= 1
    ensures Scan(FormatRow(fields, sep), sep, StartField, [], saved) == saved + fields
  {
    var f := fields[0];
    if |fields| == 1 {
      ScanLastField(f, sep, saved);
      assert fields == [f];
    } else {
      var next := FormatRow(fields[1..], sep);
      var tail := [sep] + next;
      ScanQuoted(f, tail, sep, saved);
      assert FormatRow(fields, sep) == [Quote] + Escape(f) + [Quote] + tail;
      assert Scan(tail, sep, QuoteInQuotedField, f, saved) == Scan(next, sep, StartField, [], saved + [f]);
      ScanFormatted(fields[1..], sep, saved + [f]);
      assert saved + [f] + fields[1..] == saved + fields;
    }
  }

  lemma ScanLastField(f: string, sep: char, saved: seq<string>)
    ensures Scan(QuoteField(f), sep, StartField, [], saved) == saved + [f]
  {
    ScanQuoted(f, [], sep, saved);
    assert [Quote] + Escape(f) + [Quote] + [] == QuoteField(f);
  }

  /** A quoted field followed by `tail`, read from the start of a field. */
  lemma ScanQuoted(f: string, tail: string, sep: char, saved: seq<string>)
    ensures Scan([Quote] + Escape(f) + [Quote] + tail, sep, StartField, [], saved)
         == Scan(tail, sep, QuoteInQuotedField, f, saved)
  {
    var body := Escape(f) + [Quote] + tail;
    assert [Quote] + Escape(f) + [Quote] + tail == [Quote] + body;
    assert ([Quote] + body)[1..] == body;
    ScanEscaped(f, tail, sep, [], saved);
    assert [] + f == f;
  }

  lemma FormattedRecord(fields: seq<string>, sep: char)
    requires sep != Quote && |fields| >= 1
    ensures ReadRecord(FormatRow(fields, sep), sep) == fields
  {
    ScanFormatted(fields, sep, []);
  }

  /** The reader never invents characters: a character absent from the line, from
      the pending field and from the saved fields is absent from every field read. */
  lemma {:induction false} ScanKeepsOut(s: string, sep: char, state: ReadState, field: string, fields: seq<string>, c: char)
    requires c !in s && c !in field
    requires forall k | 0 <= k < |fields| :: c !in fields[k]
    ensures forall k | 0 <= k < |Scan(s, sep, state, field, fields)| :: c !in Scan(s, sep, state, field, fields)[k]
    decreases |s|
  {
    if s != [] {
      var rest := s[1..];
      assert forall x :: x in rest ==> x in s;
      var acc := fields + [field];
      assert forall k | 0 <= k < |acc| :: c !in acc[k];
      match state
      case StartField =>
        ScanKeepsOut(rest, sep, InQuotedField, field, fields, c);
        ScanKeepsOut(rest, sep, StartField, [], acc, c);
        ScanKeepsOut(rest, sep, InField, field + [s[0]], fields, c);
      case InField =>
        ScanKeepsOut(rest, sep, StartField, [], acc, c);
        ScanKeepsOut(rest, sep, InField, field + [s[0]], fields, c);
      case InQuotedField =>
        ScanKeepsOut(rest, sep, QuoteInQuotedField, field, fields, c);
        ScanKeepsOut(rest, sep, InQuotedField, field + [s[0]], fields, c);
      case QuoteInQuotedField =>
        ScanKeepsOut(rest, sep, InQuotedField, field + [s[0]], fields, c);
        ScanKeepsOut(rest, sep, StartField, [], acc, c);
        ScanKeepsOut(rest, sep, InField, field + [s[0]], fields, c);
    }
  }

  lemma RecordKeepsOut(line: string, sep: char, c: char)
    requires line != [] && sep != Quote && c !in line
    ensures forall k | 0 <= k < |ReadRecord(line, sep)| :: c !in ReadRecord(line, sep)[k]
  {
    ScanKeepsOut(line, sep, StartField, [], [], c);
  }
}
