/** The header-driven CSV parser: a quote-aware scanner that splits one line
    into fields, and the parser that turns a whole text into records keyed by
    the header's column names. */
module Csv {
  import opened Builtins

  /** One data row, keyed by column name. */
  type CsvRecord = map<string, string>

  const Quote: char := '"'
  const Comma: char := ','

  // ---------------------------------------------------------------------
  // splitCsvLine

  /** The fields still to come when the scan reaches `rest`, inside quotes
      or not, with `current` collected so far for the field in progress.
      A `"` toggles the quote state, except that `""` inside quotes stands
      for one literal `"`; a comma outside quotes ends a field. */
  function Scan(rest: string, inQuotes: bool, current: string): (fields: seq<string>)
    ensures |fields| >= 1
    decreases |rest|
  {
    if rest == [] then [current]
    else if rest[0] == Quote then
      if inQuotes && |rest| > 1 && rest[1] == Quote then Scan(rest[2..], true, current + [Quote])
      else Scan(rest[1..], !inQuotes, current)
    else if rest[0] == Comma && !inQuotes then [current] + Scan(rest[1..], false, [])
    else Scan(rest[1..], inQuotes, current + [rest[0]])
  }

  /** The fields of one line. */
  function Fields(line: string): (fields: seq<string>)
    ensures |fields| >= 1
  {
    Scan(line, false, [])
  }

  /** The character-by-character scan of `splitCsvLine`. It never fails, not
      even on unbalanced quotes. */
  method SplitCsvLine(line: string) returns (result: seq<string>)
    ensures result == Fields(line)
  {
    result := [];
    var current: string := [];
    var inQuotes := false;
    var i := 0;
    while i < |line|
      invariant 0 <= i <= |line|
      invariant result + Scan(line[i..], inQuotes, current) == Fields(line)
    {
      var ch := line[i];
      assert line[i..][0] == ch && line[i..][1..] == line[i + 1..];
      if ch == Quote {
        if inQuotes && i + 1 < |line| && line[i + 1] == Quote {
          assert line[i..][2..] == line[i + 2..];
          current := current + [Quote];
          i := i + 1;  // the escaped quote is consumed too
        } else {
          inQuotes := !inQuotes;
        }
      } else if ch == Comma && !inQuotes {
        assert result + Scan(line[i..], inQuotes, current) == (result + [current]) + Scan(line[i + 1..], false, []);
        result := result + [current];
        current := [];
      } else {
        current := current + [ch];
      }
      i := i + 1;
    }
    assert line[i..] == [];
    result := result + [current];
  }

  /** The commas of `s` met outside quotes when every `"` is read as a plain
      toggle of the quote state. */
  function CommasOutsideQuotes(s: string, inQuotes: bool): nat
    decreases |s|
  {
    if s == [] then 0
    else if s[0] == Quote then CommasOutsideQuotes(s[1..], !inQuotes)
    else (if s[0] == Comma && !inQuotes then 1 else 0) + CommasOutsideQuotes(s[1..], inQuotes)
  }

  lemma {:induction false} ScanCount(rest: string, inQuotes: bool, current: string)
    ensures |Scan(rest, inQuotes, current)| == CommasOutsideQuotes(rest, inQuotes) + 1
    decreases |rest|
  {
    if rest == [] {
    } else if rest[0] == Quote {
      if inQuotes && |rest| > 1 && rest[1] == Quote {
        ScanCount(rest[2..], true, current + [Quote]);
        assert rest[1..][1..] == rest[2..];
      } else {
        ScanCount(rest[1..], !inQuotes, current);
      }
    } else if rest[0] == Comma && !inQuotes {
      ScanCount(rest[1..], false, []);
    } else {
      ScanCount(rest[1..], inQuotes, current + [rest[0]]);
    }
  }

  /** A line has one field more than it has commas outside quotes. An escaped
      `""` toggles the quote state twice, which is why the plain toggle
      reading counts the separators right. */
  lemma FieldCount(line: string)
    ensures |Fields(line)| == CommasOutsideQuotes(line, false) + 1
  {
    ScanCount(line, false, []);
  }

  /** The scan of a quote-free `s` from field prefix `current`, in terms of
      the comma-separated pieces of `s`. */
  predicate PlainScan(s: string, current: string) {
    var p := SplitOn(s, Comma); Scan(s, false, current) == [current + p[0]] + p[1..]
  }

  lemma ScanPlainEmpty(current: string)
    ensures PlainScan([], current)
  {
    assert SplitOn([], Comma) == [[]];
    assert current + [] == current;
  }

  lemma ScanPlainComma(s: string, current: string)
    requires Quote !in s && s != [] && s[0] == Comma
    requires PlainScan(s[1..], [])
    ensures PlainScan(s, current)
  {
    var e: string := [];
    var p' := SplitOn(s[1..], Comma);
    assert Scan(s, false, current) == [current] + Scan(s[1..], false, e);
    assert e + p'[0] == p'[0];
    assert [p'[0]] + p'[1..] == p';
    assert e + [Comma] + s[1..] == s;
    SplitOnCons(e, Comma, s[1..]);
    var p := SplitOn(s, Comma);
    assert p == [e] + p';
    assert p[0] == e && p[1..] == p';
    assert current + e == current;
  }

  lemma ScanPlainChar(s: string, current: string)
    requires Quote !in s && s != [] && s[0] != Comma
    requires PlainScan(s[1..], current + [s[0]])
    ensures PlainScan(s, current)
  {
    var p' := SplitOn(s[1..], Comma);
    assert Scan(s, false, current) == Scan(s[1..], false, current + [s[0]]);
    assert s == [s[0]] + s[1..];
    SplitOnConsChar(s[0], s[1..], Comma);
    var p := SplitOn(s, Comma);
    assert p == [[s[0]] + p'[0]] + p'[1..];
    assert p[0] == [s[0]] + p'[0] && p[1..] == p'[1..];
    assert current + [s[0]] + p'[0] == current + ([s[0]] + p'[0]);
  }

  lemma {:induction false} ScanPlain(s: string, current: string)
    requires Quote !in s
    ensures PlainScan(s, current)
    decreases |s|
  {
    if s == [] {
      ScanPlainEmpty(current);
    } else {
      assert Quote !in s[1..];
      if s[0] == Comma {
        ScanPlain(s[1..], []);
        ScanPlainComma(s, current);
      } else {
        ScanPlain(s[1..], current + [s[0]]);
        ScanPlainChar(s, current);
      }
    }
  }

  /** On a line without quotes the scan splits at every comma. */
  lemma PlainLineSplitsAtCommas(line: string)
    requires Quote !in line
    ensures Fields(line) == SplitOn(line, Comma)
  {
    ScanPlain(line, []);
    var p := SplitOn(line, Comma);
    assert [] + p[0] == p[0];
    assert [[] + p[0]] + p[1..] == p;
  }

  /** Fields free of commas and quotes, joined with commas, split back into
      themselves. */
  lemma PlainFieldsRoundTrip(fields: seq<string>)
    requires |fields| >= 1
    requires forall i :: 0 <= i < |fields| ==> Comma !in fields[i] && Quote !in fields[i]
    ensures Fields(Join(fields, [Comma])) == fields
  {
    var line := Join(fields, [Comma]);
    SplitJoin(fields, Comma);
    assert Quote !in line by { JoinAvoids(fields, Comma, Quote); }
    PlainLineSplitsAtCommas(line);
  }

  lemma {:induction false} JoinAvoids(parts: seq<string>, sep: char, c: char)
    requires c != sep
    requires forall i :: 0 <= i < |parts| ==> c !in parts[i]
    ensures c !in Join(parts, [sep])
    decreases |parts|
  {
    if |parts| > 1 {
      JoinAvoids(parts[1..], sep, c);
    }
  }

  /** The field with every `"` doubled. */
  function Escape(f: string): (e: string)
    ensures |e| >= |f|
    decreases |f|
  {
    if f == [] then []
    else if f[0] == Quote then [Quote, Quote] + Escape(f[1..])
    else [f[0]] + Escape(f[1..])
  }

  /** The field written as an RFC 4180 quoted field. */
  function Quoted(f: string): string {
    [Quote] + Escape(f) + [Quote]
  }

  /** Inside quotes, a quote not followed by another closes the quotes. */
  lemma ScanClosingQuote(rest: string, current: string)
    requires rest == [] || rest[0] != Quote
    ensures Scan([Quote] + rest, true, current) == Scan(rest, false, current)
  {
    var s := [Quote] + rest;
    assert s[1..] == rest;
  }

  /** Inside quotes, `""` is one quote of data. */
  lemma ScanDoubledQuote(tail: string, current: string)
    ensures Scan([Quote, Quote] + tail, true, current) == Scan(tail, true, current + [Quote])
  {
    var s := [Quote, Quote] + tail;
    assert s[2..] == tail;
  }

  /** Inside quotes, any other character, a comma too, is data. */
  lemma ScanQuotedChar(c: char, tail: string, current: string)
    requires c != Quote
    ensures Scan([c] + tail, true, current) == Scan(tail, true, current + [c])
  {
    var s := [c] + tail;
    assert s[1..] == tail;
  }

  /** Inside quotes an escaped field is read back literally, and its closing
      quote leaves the quotes. */
  lemma {:induction false} ScanEscaped(f: string, rest: string, current: string)
    requires rest == [] || rest[0] != Quote
    ensures Scan(Escape(f) + [Quote] + rest, true, current) == Scan(rest, false, current + f)
    decreases |f|
  {
    if f == [] {
      assert Escape(f) + [Quote] + rest == [Quote] + rest;
      ScanClosingQuote(rest, current);
      assert current + f == current;
    } else {
      var tail := Escape(f[1..]) + [Quote] + rest;
      ScanEscaped(f[1..], rest, current + [f[0]]);
      assert current + [f[0]] + f[1..] == current + f;
      if f[0] == Quote {
        assert Escape(f) == [Quote, Quote] + Escape(f[1..]);
        assert Escape(f) + [Quote] + rest == [Quote, Quote] + tail;
        ScanDoubledQuote(tail, current);
      } else {
        assert Escape(f) == [f[0]] + Escape(f[1..]);
        assert Escape(f) + [Quote] + rest == [f[0]] + tail;
        ScanQuotedChar(f[0], tail, current);
      }
    }
  }

  function QuoteAll(fields: seq<string>): (q: seq<string>)
    ensures |q| == |fields|
  {
    seq(|fields|, i requires 0 <= i < |fields| => Quoted(fields[i]))
  }

  /** Any fields, quoted and joined with commas, split back into themselves:
      commas inside quotes are data and `""` reads as one `"`. */
  lemma {:induction false} QuotedFieldsRoundTrip(fields: seq<string>)
    requires |fields| >= 1
    ensures Fields(Join(QuoteAll(fields), [Comma])) == fields
    decreases |fields|
  {
    var f := fields[0];
    var q := QuoteAll(fields);
    var line := Join(q, [Comma]);
    var after: string := if |fields| == 1 then [] else [Comma] + Join(QuoteAll(fields[1..]), [Comma]);
    if |fields| > 1 {
      assert QuoteAll(fields[1..]) == q[1..];
      assert line == q[0] + [Comma] + Join(q[1..], [Comma]);
    }
    assert line == [Quote] + (Escape(f) + [Quote] + after);
    assert Scan(line, false, []) == Scan(line[1..], true, []);
    assert line[1..] == Escape(f) + [Quote] + after;
    ScanEscaped(f, after, []);
    assert [] + f == f;
    if |fields| > 1 {
      QuotedFieldsRoundTrip(fields[1..]);
      assert after[1..] == Join(QuoteAll(fields[1..]), [Comma]);
      assert Scan(after, false, f) == [f] + Scan(after[1..], false, []);
      assert fields == [f] + fields[1..];
    }
  }

  /** The total length of some fields. */
  function TotalLength(fields: seq<string>): nat
    decreases |fields|
  {
    if fields == [] then 0 else |fields[0]| + TotalLength(fields[1..])
  }

  /** How many times `c` occurs in `s`. */
  function Occurrences(s: string, c: char): nat
    decreases |s|
  {
    if s == [] then 0 else (if s[0] == c then 1 else 0) + Occurrences(s[1..], c)
  }

  /** How many quotes the fields hold in all. */
  function QuotesIn(fields: seq<string>): nat
    decreases |fields|
  {
    if fields == [] then 0 else Occurrences(fields[0], Quote) + QuotesIn(fields[1..])
  }

  lemma {:induction false} OccurrencesAppend(a: string, b: string, c: char)
    ensures Occurrences(a + b, c) == Occurrences(a, c) + Occurrences(b, c)
    decreases |a|
  {
    if a == [] {
      assert a + b == b;
    } else {
      assert (a + b)[1..] == a[1..] + b;
      OccurrencesAppend(a[1..], b, c);
    }
  }

  lemma {:induction false} ScanDeletes(rest: string, inQuotes: bool, current: string)
    ensures var fields := Scan(rest, inQuotes, current);
      && TotalLength(fields) + |fields| <= |rest| + |current| + 1
      && 2 * QuotesIn(fields) <= Occurrences(rest, Quote) + 2 * Occurrences(current, Quote)
    decreases |rest|
  {
    if rest == [] {
      assert TotalLength([current]) == |current| + TotalLength([]);
      assert QuotesIn([current]) == Occurrences(current, Quote) + QuotesIn([]);
    } else if rest[0] == Quote {
      if inQuotes && |rest| > 1 && rest[1] == Quote {
        ScanDeletes(rest[2..], true, current + [Quote]);
        OccurrencesAppend(current, [Quote], Quote);
        assert Occurrences([Quote], Quote) == 1 + Occurrences([], Quote);
        assert rest[1..][1..] == rest[2..];
        assert Occurrences(rest, Quote) == 2 + Occurrences(rest[2..], Quote);
      } else {
        ScanDeletes(rest[1..], !inQuotes, current);
      }
    } else if rest[0] == Comma && !inQuotes {
      ScanDeletes(rest[1..], false, []);
      var tail := Scan(rest[1..], false, []);
      assert ([current] + tail)[1..] == tail;
      assert TotalLength([current] + tail) == |current| + TotalLength(tail);
      assert QuotesIn([current] + tail) == Occurrences(current, Quote) + QuotesIn(tail);
    } else {
      ScanDeletes(rest[1..], inQuotes, current + [rest[0]]);
      OccurrencesAppend(current, [rest[0]], Quote);
      assert Occurrences([rest[0]], Quote) == (if rest[0] == Quote then 1 else 0) + Occurrences([], Quote);
    }
  }

  /** The scan only deletes: the fields and their separators are no longer
      than the line, and each `"` in a field stands for two in the line. */
  lemma FieldsOnlyDelete(line: string)
    ensures TotalLength(Fields(line)) + |Fields(line)| <= |line| + 1
    ensures 2 * QuotesIn(Fields(line)) <= Occurrences(line, Quote)
  {
    ScanDeletes(line, false, []);
  }

  // ---------------------------------------------------------------------
  // parseCsv

  /** Column `i` of a line, or "" when the line is shorter. */
  function Column(cols: seq<string>, i: nat): string {
    if i < |cols| then cols[i] else ""
  }

  /** The assignments `obj[header[i]] = cols[i] ?? ""`, in header order. */
  function Assignments(header: seq<string>, cols: seq<string>): (pairs: seq<(string, string)>)
    ensures |pairs| == |header|
  {
    seq(|header|, i requires 0 <= i < |header| => (header[i], Column(cols, i)))
  }

  /** The record of one data line. */
  function Record(header: seq<string>, cols: seq<string>): CsvRecord {
    Assoc(Assignments(header, cols))
  }

  /** The `forEach` that fills a record, one header column at a time. */
  method BuildRecord(header: seq<string>, cols: seq<string>) returns (obj: CsvRecord)
    ensures obj == Record(header, cols)
  {
    obj := map[];
    var i := 0;
    while i < |header|
      invariant 0 <= i <= |header|
      invariant obj == Assoc(Assignments(header, cols)[..i])
    {
      assert Assignments(header, cols)[..i + 1][..i] == Assignments(header, cols)[..i];
      obj := obj[header[i] := Column(cols, i)];
      i := i + 1;
    }
    assert Assignments(header, cols)[..i] == Assignments(header, cols);
  }

  /** A record has exactly the header names as keys. */
  lemma RecordKeys(header: seq<string>, cols: seq<string>)
    ensures Record(header, cols).Keys == set i | 0 <= i < |header| :: header[i]
  {
    var pairs := Assignments(header, cols);
    assert forall i :: 0 <= i < |pairs| ==> pairs[i].0 == header[i];
    var a, b := (set i | 0 <= i < |pairs| :: pairs[i].0), (set i | 0 <= i < |header| :: header[i]);
    forall h | h in a ensures h in b { var i :| 0 <= i < |pairs| && pairs[i].0 == h; }
    forall h | h in b ensures h in a { var i :| 0 <= i < |header| && header[i] == h; assert pairs[i].0 == h; }
  }

  /** The last column named `header[i]` gives its value: column `i` of the
      line, or "" when the line has fewer columns. */
  lemma RecordValue(header: seq<string>, cols: seq<string>, i: nat)
    requires i < |header|
    requires forall j :: i < j < |header| ==> header[j] != header[i]
    ensures header[i] in Record(header, cols)
    ensures Record(header, cols)[header[i]] == if i < |cols| then cols[i] else ""
  {
    var pairs := Assignments(header, cols);
    assert pairs[i].0 == header[i];
    assert LastWithKey(pairs, i);
    AssocLast(pairs, i);
  }

  /** Columns beyond the header are ignored. */
  lemma RecordIgnoresExtraColumns(header: seq<string>, cols: seq<string>, extra: seq<string>)
    requires |cols| >= |header|
    ensures Record(header, cols + extra) == Record(header, cols)
  {
    assert Assignments(header, cols + extra) == Assignments(header, cols);
  }

  /** The lines of a text split at `\r?\n`: at each `\n`, a `\r` just before it
      goes with the break. */
  function Lines(s: string): (lines: seq<string>)
    ensures |lines| == |SplitOn(s, '\n')|
  {
    CutCr(SplitOn(s, '\n'))
  }

  /** Piece `i` with a final `\r` dropped, unless it is the last piece. */
  function LineAt(p: seq<string>, i: nat): string
    requires i < |p|
  {
    if i < |p| - 1 && p[i] != [] && p[i][|p[i]| - 1] == '\r' then p[i][..|p[i]| - 1] else p[i]
  }

  function CutCr(p: seq<string>): (lines: seq<string>)
    ensures |lines| == |p|
  {
    seq(|p|, i requires 0 <= i < |p| => LineAt(p, i))
  }

  predicate NotBlank(line: string) {
    Trim(line) != []
  }

  /** The lines of the trimmed text. */
  function TextLines(text: string): (lines: seq<string>)
    ensures |lines| >= 1
  {
    Lines(Trim(text))
  }

  /** The column names: the fields of the first line. */
  function Header(text: string): seq<string> {
    Fields(TextLines(text)[0])
  }

  /** The non-blank lines after the header, in order. */
  function DataLines(text: string): seq<string> {
    Filter(TextLines(text)[1..], NotBlank)
  }

  /** `parseCsv`: one record per data line. The text always has a first line,
      so the source's guard against zero lines never fires. */
  function ParseCsv(text: string): (records: seq<CsvRecord>)
    ensures |records| == |DataLines(text)| < |TextLines(text)|
  {
    ParseLines(TextLines(text))
  }

  /** The records of the lines of a text: the first line is the header. */
  function ParseLines(lines: seq<string>): (records: seq<CsvRecord>)
    requires |lines| >= 1
  {
    var header, data := Fields(lines[0]), Filter(lines[1..], NotBlank);
    seq(|data|, i requires 0 <= i < |data| => Record(header, Fields(data[i])))
  }

  /** Every record is keyed by exactly the header names. */
  lemma ParseCsvKeys(text: string)
    ensures forall i :: 0 <= i < |ParseCsv(text)| ==>
      ParseCsv(text)[i].Keys == set j | 0 <= j < |Header(text)| :: Header(text)[j]
  {
    var header, data := Header(text), DataLines(text);
    forall i | 0 <= i < |data|
      ensures ParseCsv(text)[i].Keys == set j | 0 <= j < |header| :: header[j]
    {
      RecordKeys(header, Fields(data[i]));
    }
  }

  /** Record `i` is read from data line `i` under the header. */
  lemma ParseCsvRecordAt(text: string)
    ensures forall i :: 0 <= i < |DataLines(text)| ==>
      ParseCsv(text)[i] == Record(Header(text), Fields(DataLines(text)[i]))
  {
  }

  /** A line is blank exactly when every character of it is white space. */
  lemma NotBlankIff(l: string)
    ensures NotBlank(l) <==> exists c :: c in l && !IsSpace(c)
  {
    TrimEmptyIff(l);
    if NotBlank(l) {
      var i :| 0 <= i < |l| && !IsSpace(l[i]);
      assert l[i] in l;
    }
  }

  /** The data lines are exactly the non-blank lines after the header. */
  lemma DataLinesExactly(text: string)
    ensures forall i :: 0 <= i < |DataLines(text)| ==>
      DataLines(text)[i] in TextLines(text)[1..] && exists c :: c in DataLines(text)[i] && !IsSpace(c)
    ensures forall l :: l in TextLines(text)[1..] && (exists c :: c in l && !IsSpace(c)) ==> l in DataLines(text)
  {
    var rest := TextLines(text)[1..];
    FilterMembers(rest, NotBlank);
    forall l: string ensures NotBlank(l) <==> exists c :: c in l && !IsSpace(c) {
      NotBlankIff(l);
    }
    forall l | l in rest && NotBlank(l) ensures l in DataLines(text) {
      var k :| 0 <= k < |rest| && rest[k] == l;
    }
  }

  /** A text with no line break after trimming, the empty text among them,
      has no records. */
  lemma HeaderOnlyHasNoRecords(text: string)
    requires '\n' !in Trim(text)
    ensures ParseCsv(text) == []
  {
  }

  /** A line made of white space only is skipped. */
  lemma BlankLinesSkipped(lines: seq<string>, i: nat)
    requires i < |lines| && forall k :: 0 <= k < |lines[i]| ==> IsSpace(lines[i][k])
    ensures Filter(lines, NotBlank) == Filter(lines[..i], NotBlank) + Filter(lines[i + 1..], NotBlank)
  {
    var x := lines[i];
    TrimEmptyIff(x);
    assert !NotBlank(x);
    var a, b := lines[..i], lines[i + 1..];
    assert lines == (a + [x]) + b;
    FilterAppend(a + [x], b, NotBlank);
    FilterAppend(a, [x], NotBlank);
    FilterOne(x, NotBlank);
    assert Filter(a + [x], NotBlank) == Filter(a, NotBlank);
  }

  /** The text with every `\n` line break written as `\r\n`. */
  function ToCrlf(s: string): string
    decreases |s|
  {
    if s == [] then [] else (if s[0] == '\n' then "\r\n" else [s[0]]) + ToCrlf(s[1..])
  }

  lemma {:induction false} ToCrlfAppend(a: string, b: string)
    ensures ToCrlf(a + b) == ToCrlf(a) + ToCrlf(b)
    decreases |a|
  {
    if a == [] {
      assert a + b == b;
    } else {
      assert (a + b)[0] == a[0] && (a + b)[1..] == a[1..] + b;
      ToCrlfAppend(a[1..], b);
    }
  }

  lemma {:induction false} ToCrlfNoBreak(s: string)
    requires '\n' !in s
    ensures ToCrlf(s) == s
    decreases |s|
  {
    if s != [] {
      assert s[1..] == s[1..] && '\n' !in s[1..] by { assert forall i :: 0 <= i < |s| - 1 ==> s[1..][i] == s[i + 1]; }
      ToCrlfNoBreak(s[1..]);
    }
  }

  lemma {:induction false} TrimStartSpaces(x: string, y: string)
    requires forall i :: 0 <= i < |x| ==> IsSpace(x[i])
    ensures TrimStart(x + y) == TrimStart(y)
    decreases |x|
  {
    if x == [] {
      assert x + y == y;
    } else {
      assert (x + y)[0] == x[0] && (x + y)[1..] == x[1..] + y;
      TrimStartSpaces(x[1..], y);
    }
  }

  lemma {:induction false} TrimEndSpaces(x: string, y: string)
    requires forall i :: 0 <= i < |y| ==> IsSpace(y[i])
    ensures TrimEnd(x + y) == TrimEnd(x)
    decreases |y|
  {
    if y == [] {
      assert x + y == x;
    } else {
      var n := |y| - 1;
      assert (x + y)[|x + y| - 1] == y[n];
      assert (x + y)[..|x + y| - 1] == x + y[..n];
      TrimEndSpaces(x, y[..n]);
    }
  }

  /** Writing line breaks as `\r\n` commutes with trimming the start. */
  lemma {:induction false} TrimStartCrlf(s: string)
    ensures TrimStart(ToCrlf(s)) == ToCrlf(TrimStart(s))
    decreases |s|
  {
    if s != [] {
      var x: string := if s[0] == '\n' then "\r\n" else [s[0]];
      assert ToCrlf(s) == x + ToCrlf(s[1..]);
      if IsSpace(s[0]) {
        TrimStartSpaces(x, ToCrlf(s[1..]));
        TrimStartCrlf(s[1..]);
      } else {
        assert ToCrlf(s)[0] == s[0];
      }
    }
  }

  /** Writing line breaks as `\r\n` commutes with trimming the end. */
  lemma {:induction false} TrimEndCrlf(s: string)
    ensures TrimEnd(ToCrlf(s)) == ToCrlf(TrimEnd(s))
    decreases |s|
  {
    if s != [] {
      var n := |s| - 1;
      var c := s[n];
      var x: string := if c == '\n' then "\r\n" else [c];
      assert s == s[..n] + [c];
      ToCrlfAppend(s[..n], [c]);
      assert ToCrlf([c]) == x + ToCrlf([]);
      assert ToCrlf(s) == ToCrlf(s[..n]) + x;
      if IsSpace(c) {
        TrimEndSpaces(ToCrlf(s[..n]), x);
        TrimEndCrlf(s[..n]);
      } else {
        assert ToCrlf(s)[|ToCrlf(s)| - 1] == c;
      }
    }
  }

  lemma {:induction false} JoinHolds(parts: seq<string>, sep: char, i: nat, c: char)
    requires i < |parts| && c in parts[i]
    ensures c in Join(parts, [sep])
    decreases |parts|
  {
    if |parts| > 1 {
      if i == 0 {
        assert Join(parts, [sep]) == parts[0] + ([sep] + Join(parts[1..], [sep]));
      } else {
        JoinHolds(parts[1..], sep, i - 1, c);
      }
    }
  }

  /** Every line but the last gains a `\r` at its end. */
  function WithCr(parts: seq<string>): (r: seq<string>)
    ensures |r| == |parts|
    ensures forall i :: 0 <= i < |parts| - 1 ==> r[i] == parts[i] + "\r"
    ensures |parts| > 0 ==> r[|parts| - 1] == parts[|parts| - 1]
  {
    if |parts| <= 1 then parts else [parts[0] + "\r"] + WithCr(parts[1..])
  }

  lemma ToCrlfBreak(a: string, b: string)
    requires '\n' !in a
    ensures ToCrlf(a + ['\n'] + b) == (a + "\r") + ['\n'] + ToCrlf(b)
  {
    assert a + ['\n'] + b == a + (['\n'] + b);
    ToCrlfAppend(a, ['\n'] + b);
    assert (['\n'] + b)[0] == '\n' && (['\n'] + b)[1..] == b;
    ToCrlfNoBreak(a);
  }

  lemma {:induction false} SplitCrlf(s: string)
    requires '\r' !in s
    ensures SplitOn(ToCrlf(s), '\n') == WithCr(SplitOn(s, '\n'))
    decreases |s|
  {
    if '\n' !in s {
      ToCrlfNoBreak(s);
    } else {
      var k := IndexOf(s, '\n');
      var a, b := s[..k], s[k + 1..];
      assert s == a + ['\n'] + b;
      assert '\r' !in b by { assert forall i :: 0 <= i < |b| ==> b[i] == s[k + 1 + i]; }
      ToCrlfBreak(a, b);
      SplitOnCons(a + "\r", '\n', ToCrlf(b));
      SplitCrlf(b);
      var p := SplitOn(b, '\n');
      assert SplitOn(s, '\n') == [a] + p;
      assert ([a] + p)[1..] == p;
    }
  }

  /** A piece of a `\r`-free string has no `\r`. */
  lemma PieceNoCr(s: string, i: nat)
    requires '\r' !in s && i < |SplitOn(s, '\n')|
    ensures '\r' !in SplitOn(s, '\n')[i]
  {
    SplitOnJoin(s, '\n');
    if '\r' in SplitOn(s, '\n')[i] {
      JoinHolds(SplitOn(s, '\n'), '\n', i, '\r');
    }
  }

  lemma LineAtWithCr(p: seq<string>, i: nat)
    requires i < |p| && '\r' !in p[i]
    ensures LineAt(WithCr(p), i) == LineAt(p, i)
  {
    if i < |p| - 1 {
      var q := WithCr(p)[i];
      assert q == p[i] + "\r";
      assert q[..|q| - 1] == p[i];
      assert p[i] == [] || p[i][|p[i]| - 1] in p[i];
    }
  }

  lemma CutCrWithCr(p: seq<string>)
    requires forall i :: 0 <= i < |p| ==> '\r' !in p[i]
    ensures CutCr(WithCr(p)) == CutCr(p)
  {
    forall i | 0 <= i < |p| ensures CutCr(WithCr(p))[i] == CutCr(p)[i] {
      LineAtWithCr(p, i);
    }
  }

  /** Line breaks `\n` and `\r\n` give the same lines. */
  lemma LinesCrlf(s: string)
    requires '\r' !in s
    ensures Lines(ToCrlf(s)) == Lines(s)
  {
    SplitCrlf(s);
    forall i | 0 <= i < |SplitOn(s, '\n')| ensures '\r' !in SplitOn(s, '\n')[i] {
      PieceNoCr(s, i);
    }
    CutCrWithCr(SplitOn(s, '\n'));
  }

  /** A text whose line breaks are `\n` and the same text with them written
      as `\r\n` give identical records. */
  lemma CrlfSameRecords(text: string)
    requires '\r' !in text
    ensures ParseCsv(ToCrlf(text)) == ParseCsv(text)
  {
    TrimStartCrlf(text);
    TrimEndCrlf(TrimStart(text));
    assert Trim(ToCrlf(text)) == ToCrlf(Trim(text));
    TrimIsInfix(text);
    var t := Trim(text);
    var k := |text| - |TrimStart(text)|;
    NotInSlice(text, '\r', k, k + |t|);
    LinesCrlf(t);
    assert TextLines(ToCrlf(text)) == TextLines(text);
  }
}
