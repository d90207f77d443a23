/**
  The COPY encoder of the document import (bulkCopy): rows become lines of PostgreSQL's COPY
  text format. The decoder is the other side, written from the PostgreSQL manual (COPY,
  section "Text Format").
 */
module CopyText {
  import opened Common
  import opened PhpStrings

  /** A value in a row array; a missing key counts as null. */
  datatype Cell = Null | Flag(b: bool) | Text(text: string)

  type Row = map<string, Cell>

  const NULL_MARKER: string := "\\N"
  const END_MARKER: string := "\\."
  const NULL_SEQUENCE: string := "\\u0000"
  const BATCH_ROWS: nat := 10000

  /** str_replace of a longer search by nothing: one pass, left to right, no rescanning. */
  function Remove(s: string, needle: string): string
    requires needle != ""
  {
    if s == "" then ""
    else if needle <= s then Remove(s[|needle|..], needle)
    else [s[0]] + Remove(s[1..], needle)
  }

  /** Null bytes and the six characters backslash u0000 are dropped before escaping. */
  function Sanitize(s: string): string {
    Remove(ReplaceChar(s, '\0', ""), NULL_SEQUENCE)
  }

  /** The four replacements, one after the other over the whole text. */
  function Escape(s: string): string {
    ReplaceChar(ReplaceChar(ReplaceChar(ReplaceChar(s, '\\', "\\\\"), '\t', "\\t"), '\n', "\\n"), '\r', "\\r")
  }

  function Lookup(row: Row, column: string): Cell {
    if column in row then row[column] else Null
  }

  function EncodeCell(cell: Cell): string {
    match cell
    case Null => NULL_MARKER
    case Flag(b) => if b then "t" else "f"
    case Text(text) => Escape(Sanitize(text))
  }

  /** What the database is meant to store for a cell: null or a text. */
  function StoredCell(cell: Cell): Option<string> {
    match cell
    case Null => None
    case Flag(b) => Some(if b then "t" else "f")
    case Text(text) => Some(Sanitize(text))
  }

  function EncodeCells(columns: seq<string>, row: Row): (values: seq<string>)
    ensures |values| == |columns|
  {
    if columns == [] then [] else [EncodeCell(Lookup(row, columns[0]))] + EncodeCells(columns[1..], row)
  }

  /** implode("\t", values). */
  function Implode(values: seq<string>): string {
    if values == [] then ""
    else if |values| == 1 then values[0]
    else values[0] + "\t" + Implode(values[1..])
  }

  function EncodeRow(columns: seq<string>, row: Row): string {
    Implode(EncodeCells(columns, row))
  }

  function StoredRow(columns: seq<string>, row: Row): seq<Option<string>> {
    if columns == [] then [] else [StoredCell(Lookup(row, columns[0]))] + StoredRow(columns[1..], row)
  }

  function Lines(columns: seq<string>, rows: seq<Row>): (lines: seq<string>)
    ensures |lines| == |rows|
  {
    if rows == [] then [] else [EncodeRow(columns, rows[0])] + Lines(columns, rows[1..])
  }

  function StoredRows(columns: seq<string>, rows: seq<Row>): seq<seq<Option<string>>> {
    if rows == [] then [] else [StoredRow(columns, rows[0])] + StoredRows(columns, rows[1..])
  }

  /** The bytes sent for a batch: every line gets a newline. */
  function Stream(lines: seq<string>): string {
    if lines == [] then "" else lines[0] + "\n" + Stream(lines[1..])
  }

  // The receiving side.

  /** Split at separators, skipping over any character that follows a backslash. */
  function SplitRaw(s: string, separator: char): (parts: seq<string>)
    ensures parts != []
  {
    if s == "" then [""]
    else if s[0] == separator then [""] + SplitRaw(s[1..], separator)
    else
      var n := if s[0] == '\\' && |s| > 1 then 2 else 1;
      var rest := SplitRaw(s[n..], separator);
      [s[..n] + rest[0]] + rest[1..]
  }

  function DigitsUpTo(s: string, digits: string, n: nat): (k: nat)
    ensures k <= n && k <= |s|
  {
    if n == 0 || s == "" || s[0] !in digits then 0 else 1 + DigitsUpTo(s[1..], digits, n - 1)
  }

  function HexValue(c: char): nat {
    if '0' <= c <= '9' then c as nat - '0' as nat
    else if 'a' <= c <= 'f' then c as nat - 'a' as nat + 10
    else if 'A' <= c <= 'F' then c as nat - 'A' as nat + 10
    else 0
  }

  function NumberValue(s: string, base: nat): nat {
    if s == "" then 0 else base * NumberValue(s[..|s| - 1], base) + HexValue(s[|s| - 1])
  }

  function ByteChar(n: nat): char {
    (n % 256) as char
  }

  /** Backslash sequences: letters, up to three octal digits, x and up to two hex digits, or the character itself. */
  function Unescape(s: string): string
    decreases |s|
  {
    if s == "" then ""
    else if s[0] != '\\' || |s| == 1 then [s[0]] + Unescape(s[1..])
    else
      var octal := DigitsUpTo(s[1..], "01234567", 3);
      var hex := DigitsUpTo(s[2..], "0123456789abcdefABCDEF", 2);
      if octal > 0 then [ByteChar(NumberValue(s[1..1 + octal], 8))] + Unescape(s[1 + octal..])
      else if s[1] == 'x' && hex > 0 then [ByteChar(NumberValue(s[2..2 + hex], 16))] + Unescape(s[2 + hex..])
      else [Unescaped(s[1])] + Unescape(s[2..])
  }

  function Unescaped(c: char): char {
    match c
    case 'b' => 8 as char
    case 'f' => 12 as char
    case 'n' => '\n'
    case 'r' => '\r'
    case 't' => '\t'
    case 'v' => 11 as char
    case _ => c
  }

  function DecodeCell(raw: string): Option<string> {
    if raw == NULL_MARKER then None else Some(Unescape(raw))
  }

  function DecodeCells(raws: seq<string>): seq<Option<string>> {
    if raws == [] then [] else [DecodeCell(raws[0])] + DecodeCells(raws[1..])
  }

  function DecodeRow(line: string): seq<Option<string>> {
    DecodeCells(SplitRaw(line, '\t'))
  }

  /** Lines up to the end of the data or an end-of-data marker; what follows the last newline is not a line. */
  function DecodeLines(lines: seq<string>): seq<seq<Option<string>>> {
    if |lines| <= 1 || lines[0] == END_MARKER then [] else [DecodeRow(lines[0])] + DecodeLines(lines[1..])
  }

  function DecodeStream(data: string): seq<seq<Option<string>>> {
    DecodeLines(SplitRaw(data, '\n'))
  }

  /** The lines are those of the rows, and the database reads the sanitised rows out of them. */
  ghost predicate Encodes(lines: seq<string>, columns: seq<string>, rows: seq<Row>) {
    && lines == Lines(columns, rows)
    && DecodeStream(Stream(lines)) == StoredRows(columns, rows)
  }

  ghost predicate AllEncode(batches: seq<seq<string>>, columns: seq<string>, chunks: seq<seq<Row>>) {
    |batches| <= |chunks| && forall k | 0 <= k < |batches| :: Encodes(batches[k], columns, chunks[k])
  }

  /** bulkCopy: the lines of every batch handed to pgsqlCopyFromArray. */
  method BulkCopy(columns: seq<string>, rows: seq<Row>) returns (batches: seq<seq<string>>)
    requires columns != []
    ensures |batches| == |Chunks(rows, 10000)| && AllEncode(batches, columns, Chunks(rows, 10000))
  {
    batches := [];
    var chunks := Chunks(rows, BATCH_ROWS);
    while |batches| < |chunks|
      invariant AllEncode(batches, columns, chunks)
      decreases |chunks| - |batches|
    {
      var lines := EncodeBatch(columns, chunks[|batches|]);
      batches := batches + [lines];
    }
  }

  method EncodeBatch(columns: seq<string>, batch: seq<Row>) returns (lines: seq<string>)
    requires columns != []
    ensures Encodes(lines, columns, batch)
  {
    lines := FormatBatch(columns, batch);
    StreamRoundTrip(columns, batch);
  }

  method FormatBatch(columns: seq<string>, batch: seq<Row>) returns (lines: seq<string>)
    ensures lines == Lines(columns, batch)
  {
    lines := [];
    var r := 0;
    while r < |batch|
      invariant 0 <= r <= |batch|
      invariant lines == Lines(columns, batch[..r])
    {
      var values := [];
      var c := 0;
      while c < |columns|
        invariant 0 <= c <= |columns|
        invariant values == EncodeCells(columns[..c], batch[r])
      {
        var value := FormatValue(Lookup(batch[r], columns[c]));
        EncodeCellsSnoc(columns[..c], columns[c], batch[r]);
        assert columns[..c + 1] == columns[..c] + [columns[c]];
        values := values + [value];
        c := c + 1;
      }
      assert columns[..c] == columns;
      LinesSnoc(columns, batch[..r], batch[r]);
      assert batch[..r + 1] == batch[..r] + [batch[r]];
      lines := lines + [Implode(values)];
      r := r + 1;
    }
    assert batch[..r] == batch;
  }

  method FormatValue(cell: Cell) returns (value: string)
    ensures value == EncodeCell(cell)
    ensures DecodeCell(value) == StoredCell(cell)
    ensures value == "\\N" <==> cell == Null
  {
    CellRoundTrip(cell);
    if cell == Null {
      value := NULL_MARKER;
    } else if cell.Flag? {
      value := if cell.b then "t" else "f";
    } else {
      value := ReplaceChar(cell.text, '\0', "");
      value := Remove(value, NULL_SEQUENCE);
      value := ReplaceChar(value, '\\', "\\\\");
      value := ReplaceChar(value, '\t', "\\t");
      value := ReplaceChar(value, '\n', "\\n");
      value := ReplaceChar(value, '\r', "\\r");
    }
  }

  lemma {:induction false} EncodeCellsSnoc(columns: seq<string>, column: string, row: Row)
    ensures EncodeCells(columns + [column], row)
         == EncodeCells(columns, row) + [EncodeCell(Lookup(row, column))]
  {
    if columns == [] {
      assert columns + [column] == [column] && [column][1..] == [];
    } else {
      assert (columns + [column])[1..] == columns[1..] + [column];
      EncodeCellsSnoc(columns[1..], column, row);
    }
  }

  lemma {:induction false} LinesSnoc(columns: seq<string>, rows: seq<Row>, row: Row)
    ensures Lines(columns, rows + [row]) == Lines(columns, rows) + [EncodeRow(columns, row)]
  {
    if rows == [] {
      assert rows + [row] == [row] && [row][1..] == [];
    } else {
      assert (rows + [row])[1..] == rows[1..] + [row];
      LinesSnoc(columns, rows[1..], row);
    }
  }

  // Escaping.

  function EscapeChar(c: char): string {
    if c == '\\' then "\\\\"
    else if c == '\t' then "\\t"
    else if c == '\n' then "\\n"
    else if c == '\r' then "\\r"
    else [c]
  }

  function AfterTab(s: string): string {
    ReplaceChar(ReplaceChar(ReplaceChar(s, '\t', "\\t"), '\n', "\\n"), '\r', "\\r")
  }

  lemma AfterTabConcat(a: string, b: string)
    ensures AfterTab(a + b) == AfterTab(a) + AfterTab(b)
  {
    ReplaceCharConcat(a, b, '\t', "\\t");
    ReplaceCharConcat(ReplaceChar(a, '\t', "\\t"), ReplaceChar(b, '\t', "\\t"), '\n', "\\n");
    ReplaceCharConcat(
      ReplaceChar(ReplaceChar(a, '\t', "\\t"), '\n', "\\n"),
      ReplaceChar(ReplaceChar(b, '\t', "\\t"), '\n', "\\n"), '\r', "\\r");
  }

  lemma AfterTabOne(c: char)
    ensures AfterTab(if c == '\\' then "\\\\" else [c]) == EscapeChar(c)
  {
    var s := if c == '\\' then "\\\\" else [c];
    if c == '\t' {
      ReplaceCharPresent('\t', "\\t");
      ReplaceCharAbsent("\\t", '\n', "\\n");
      ReplaceCharAbsent("\\t", '\r', "\\r");
    } else {
      ReplaceCharAbsent(s, '\t', "\\t");
      if c == '\n' {
        ReplaceCharPresent('\n', "\\n");
        ReplaceCharAbsent("\\n", '\r', "\\r");
      } else {
        ReplaceCharAbsent(s, '\n', "\\n");
        if c == '\r' {
          ReplaceCharPresent('\r', "\\r");
        } else {
          ReplaceCharAbsent(s, '\r', "\\r");
        }
      }
    }
  }

  /** The four replacements in sequence amount to one character-by-character escape. */
  lemma {:induction false} EscapeCharwise(s: string)
    ensures Escape(s) == if s == "" then "" else EscapeChar(s[0]) + Escape(s[1..])
  {
    if s != "" {
      AfterTabConcat(if s[0] == '\\' then "\\\\" else [s[0]], ReplaceChar(s[1..], '\\', "\\\\"));
      AfterTabOne(s[0]);
    }
  }

  lemma UnescapeUnit(c: char, rest: string)
    ensures Unescape(EscapeChar(c) + rest) == [c] + Unescape(rest)
  {
    var unit := EscapeChar(c);
    var s := unit + rest;
    assert s[|unit|..] == rest;
    if |unit| == 2 {
      assert s[1] == unit[1] && s[1..][0] == unit[1];
      assert DigitsUpTo(s[1..], "01234567", 3) == 0;
      assert Unescaped(unit[1]) == c;
    }
  }

  lemma {:induction false} UnescapeEscape(s: string)
    ensures Unescape(Escape(s)) == s
  {
    EscapeCharwise(s);
    if s != "" {
      UnescapeEscape(s[1..]);
      UnescapeUnit(s[0], Escape(s[1..]));
      assert s == [s[0]] + s[1..];
    }
  }

  lemma {:induction false} EscapedIsNotNull(s: string)
    ensures Escape(s) != NULL_MARKER && Escape(s) != END_MARKER
    ensures '\t' !in Escape(s) && '\n' !in Escape(s) && '\r' !in Escape(s)
  {
    EscapeCharwise(s);
    if s != "" {
      EscapedIsNotNull(s[1..]);
      assert |EscapeChar(s[0])| == 2 ==> Escape(s)[1] == EscapeChar(s[0])[1];
    }
  }

  /** Null, the empty text and the two characters backslash N stay three different values. */
  lemma CellRoundTrip(cell: Cell)
    ensures DecodeCell(EncodeCell(cell)) == StoredCell(cell)
  {
    match cell
    case Null =>
    case Flag(b) =>
      assert Unescape("t") == "t" by { assert "t"[1..] == ""; }
      assert Unescape("f") == "f" by { assert "f"[1..] == ""; }
    case Text(text) =>
      EscapedIsNotNull(Sanitize(text));
      UnescapeEscape(Sanitize(text));
  }

  // Splitting.

  /** Read unit by unit, s never shows the separator raw and never ends inside a backslash pair. */
  ghost predicate Avoids(s: string, separator: char) {
    if s == "" then true
    else if s[0] == '\\' then |s| > 1 && Avoids(s[2..], separator)
    else s[0] != separator && Avoids(s[1..], separator)
  }

  lemma {:induction false} SplitAtSeparator(s: string, separator: char, rest: string)
    requires separator != '\\' && Avoids(s, separator)
    ensures SplitRaw(s + [separator] + rest, separator) == [s] + SplitRaw(rest, separator)
    ensures SplitRaw(s, separator) == [s]
  {
    var all := s + [separator] + rest;
    if s == "" {
      assert all == [separator] + rest && all[1..] == rest;
    } else {
      var n := if s[0] == '\\' then 2 else 1;
      SplitAtSeparator(s[n..], separator, rest);
      assert all[n..] == s[n..] + [separator] + rest && all[..n] == s[..n];
      assert s == s[..n] + s[n..];
    }
  }

  lemma {:induction false} AvoidsConcat(a: string, b: string, separator: char)
    requires Avoids(a, separator) && Avoids(b, separator)
    ensures Avoids(a + b, separator)
  {
    if a == "" {
      assert a + b == b;
    } else {
      var n := if a[0] == '\\' then 2 else 1;
      AvoidsConcat(a[n..], b, separator);
      assert (a + b)[n..] == a[n..] + b;
    }
  }

  lemma {:induction false} EscapedAvoids(s: string, separator: char)
    requires separator == '\t' || separator == '\n'
    ensures Avoids(Escape(s), separator)
  {
    EscapeCharwise(s);
    if s != "" {
      EscapedAvoids(s[1..], separator);
      var unit := EscapeChar(s[0]);
      assert unit[|unit|..] == "";
      assert Avoids(unit, separator);
      AvoidsConcat(unit, Escape(s[1..]), separator);
    }
  }

  lemma EncodedCellAvoids(cell: Cell, separator: char)
    requires separator == '\t' || separator == '\n'
    ensures Avoids(EncodeCell(cell), separator)
    ensures EncodeCell(cell) != END_MARKER && separator !in EncodeCell(cell)
  {
    match cell
    case Null => assert NULL_MARKER[2..] == "";
    case Flag(b) => assert "t"[1..] == "" && "f"[1..] == "";
    case Text(text) =>
      EscapedAvoids(Sanitize(text), separator);
      EscapedIsNotNull(Sanitize(text));
  }

  /** A row's line splits back into its cells, and the server can neither cut it nor take it for the end of the data. */
  lemma {:induction false} RowRoundTrip(columns: seq<string>, row: Row)
    requires columns != []
    ensures DecodeRow(EncodeRow(columns, row)) == StoredRow(columns, row)
    ensures '\n' !in EncodeRow(columns, row) && EncodeRow(columns, row) != "\\."
    ensures Avoids(EncodeRow(columns, row), '\n')
  {
    var cell := Lookup(row, columns[0]);
    var first := EncodeCell(cell);
    CellRoundTrip(cell);
    EncodedCellAvoids(cell, '\t');
    EncodedCellAvoids(cell, '\n');
    if |columns| == 1 {
      SplitAtSeparator(first, '\t', "");
      assert [first][1..] == [] && columns[1..] == [];
    } else {
      var rest := EncodeRow(columns[1..], row);
      assert EncodeCells(columns, row)[1..] == EncodeCells(columns[1..], row);
      RowRoundTrip(columns[1..], row);
      SplitAtSeparator(first, '\t', rest);
      assert first + ['\t'] + rest == EncodeRow(columns, row);
      assert ([first] + SplitRaw(rest, '\t'))[1..] == SplitRaw(rest, '\t');
      assert "\t"[1..] == "";
      AvoidsConcat(first, "\t", '\n');
      AvoidsConcat(first + "\t", rest, '\n');
      assert EncodeRow(columns, row)[|first|] == '\t' && '\t' !in END_MARKER;
    }
  }

  /** Decoding a batch gives back exactly the sanitised rows, for any rows and any columns. */
  lemma {:induction false} StreamRoundTrip(columns: seq<string>, rows: seq<Row>)
    requires columns != []
    ensures DecodeStream(Stream(Lines(columns, rows))) == StoredRows(columns, rows)
  {
    if rows == [] {
      assert SplitRaw("", '\n') == [""];
    } else {
      var line := EncodeRow(columns, rows[0]);
      var lines := Lines(columns, rows);
      var rest := Stream(lines[1..]);
      assert lines[1..] == Lines(columns, rows[1..]);
      StreamRoundTrip(columns, rows[1..]);
      RowRoundTrip(columns, rows[0]);
      SplitAtSeparator(line, '\n', rest);
      assert Stream(lines) == line + ['\n'] + rest;
      assert ([line] + SplitRaw(rest, '\n'))[1..] == SplitRaw(rest, '\n');
    }
  }

  // What sanitising leaves.

  predicate Occurs(needle: string, s: string) {
    exists i | 0 <= i <= |s| :: needle <= s[i..]
  }

  /** The text spells the null sequence from its k-th character on, apart from whole null sequences in between. */
  predicate Spells(s: string, k: nat)
    requires k <= 6
    decreases |s|
  {
    k == 6
    || (NULL_SEQUENCE <= s && Spells(s[6..], k))
    || (!(NULL_SEQUENCE <= s) && s != "" && s[0] == NULL_SEQUENCE[k] && Spells(s[1..], k + 1))
  }

  lemma {:induction false} SpellsIff(s: string, k: nat)
    requires k <= 6
    ensures NULL_SEQUENCE[k..] <= Remove(s, NULL_SEQUENCE) <==> Spells(s, k)
    decreases |s|
  {
    if k < 6 && s != "" {
      if NULL_SEQUENCE <= s {
        SpellsIff(s[6..], k);
      } else {
        SpellsIff(s[1..], k + 1);
        FirstAndRest(NULL_SEQUENCE[k..], s[0], Remove(s[1..], NULL_SEQUENCE));
        assert NULL_SEQUENCE[k..][1..] == NULL_SEQUENCE[k + 1..];
      }
    }
  }

  lemma FirstAndRest(part: string, c: char, rest: string)
    requires part != ""
    ensures part <= [c] + rest <==> part[0] == c && part[1..] <= rest
  {
    var all := [c] + rest;
    assert all[1..] == rest;
    if part[0] == c && part[1..] <= rest {
      assert part == [c] + part[1..];
    }
    if part <= all {
      assert part[1..] == all[..|part|][1..];
    }
  }

  /** From some position on the text spells the null sequence, apart from whole ones in between. */
  ghost predicate SpellsSomewhere(s: string) {
    exists i | 0 <= i <= |s| :: Spells(s[i..], 0)
  }

  lemma OccursStep(needle: string, c: char, rest: string)
    ensures Occurs(needle, [c] + rest) <==> needle <= [c] + rest || Occurs(needle, rest)
  {
    var all := [c] + rest;
    if i :| 0 <= i <= |rest| && needle <= rest[i..] {
      assert all[i + 1..] == rest[i..];
    }
    if i :| 0 < i <= |all| && needle <= all[i..] {
      assert all[i..] == rest[i - 1..];
    }
    if needle <= all {
      assert all[0..] == all;
    }
  }

  lemma SpellsLater(s: string, n: nat)
    requires n <= |s| && SpellsSomewhere(s[n..])
    ensures SpellsSomewhere(s)
  {
    var i :| 0 <= i <= |s[n..]| && Spells(s[n..][i..], 0);
    assert s[n + i..] == s[n..][i..];
  }

  /** Inside a null sequence nothing can begin to spell another one. */
  lemma NotInside(s: string, i: nat)
    requires NULL_SEQUENCE <= s && 0 < i < 6
    ensures !Spells(s[i..], 0)
  {
    assert s[i..][0] == s[i] == NULL_SEQUENCE[i] != NULL_SEQUENCE[0];
  }

  lemma SpellsAfter(s: string)
    requires NULL_SEQUENCE <= s && SpellsSomewhere(s)
    ensures SpellsSomewhere(s[6..])
  {
    forall i | 0 < i < 6 ensures !Spells(s[i..], 0) {
      NotInside(s, i);
    }
    var i :| 0 <= i <= |s| && Spells(s[i..], 0);
    assert i == 0 || 6 <= i;
    if i == 0 {
      assert s[0..] == s && s[6..][0..] == s[6..];
    } else {
      assert s[i..] == s[6..][i - 6..];
    }
  }

  lemma SpellsHereOrLater(s: string)
    requires s != ""
    ensures SpellsSomewhere(s) <==> Spells(s, 0) || SpellsSomewhere(s[1..])
  {
    if Spells(s, 0) {
      assert s[0..] == s;
    }
    if SpellsSomewhere(s[1..]) {
      SpellsLater(s, 1);
    }
    if i :| 0 <= i <= |s| && Spells(s[i..], 0) {
      if i == 0 {
        assert s[0..] == s;
      } else {
        assert s[i..] == s[1..][i - 1..];
      }
    }
  }

  /** One pass leaves a null sequence exactly where removing others puts one together. */
  lemma {:induction false} RemoveLeavesIff(s: string)
    ensures Occurs(NULL_SEQUENCE, Remove(s, NULL_SEQUENCE)) <==> SpellsSomewhere(s)
    decreases |s|
  {
    if s == "" {
      assert !SpellsSomewhere("");
    } else if NULL_SEQUENCE <= s {
      RemoveLeavesIff(s[6..]);
      if SpellsSomewhere(s) {
        SpellsAfter(s);
      }
      if SpellsSomewhere(s[6..]) {
        SpellsLater(s, 6);
      }
    } else {
      RemoveLeavesIff(s[1..]);
      SpellsHereOrLater(s);
      SpellsIff(s, 0);
      OccursStep(NULL_SEQUENCE, s[0], Remove(s[1..], NULL_SEQUENCE));
    }
  }

  lemma {:induction false} RemovedChars(s: string, needle: string)
    requires needle != ""
    ensures forall c | c in Remove(s, needle) :: c in s
    decreases |s|
  {
    if s != "" {
      if needle <= s {
        RemovedChars(s[|needle|..], needle);
      } else {
        RemovedChars(s[1..], needle);
      }
    }
  }

  lemma {:induction false} NoneLeft(s: string, c: char)
    ensures c !in ReplaceChar(s, c, "")
  {
    if s != "" {
      NoneLeft(s[1..], c);
    }
  }

  /** A sanitised text has no null byte; it has a null sequence exactly if the text, less its null bytes, spells one. */
  lemma SanitizedLeavesIff(s: string)
    ensures '\0' !in Sanitize(s)
    ensures Occurs(NULL_SEQUENCE, Sanitize(s)) <==> SpellsSomewhere(ReplaceChar(s, '\0', ""))
  {
    var text := ReplaceChar(s, '\0', "");
    NoneLeft(s, '\0');
    RemovedChars(text, NULL_SEQUENCE);
    RemoveLeavesIff(text);
  }

  lemma {:induction false} TooShort(s: string)
    requires |s| < 6
    ensures Remove(s, NULL_SEQUENCE) == s
  {
    if s != "" {
      TooShort(s[1..]);
      assert s == [s[0]] + s[1..];
    }
  }

  lemma {:induction false} StartStays(start: string, rest: string)
    requires forall j | 0 <= j < |start| :: !(NULL_SEQUENCE <= start[j..] + rest)
    ensures Remove(start + rest, NULL_SEQUENCE) == start + Remove(rest, NULL_SEQUENCE)
  {
    if start == "" {
      assert start + rest == rest;
    } else {
      assert start[0..] == start && (start + rest)[1..] == start[1..] + rest;
      forall j | 0 <= j < |start| - 1 ensures !(NULL_SEQUENCE <= start[1..][j..] + rest) {
        assert start[1..][j..] == start[j + 1..];
      }
      StartStays(start[1..], rest);
      assert [start[0]] + (start[1..] + Remove(rest, NULL_SEQUENCE)) == start + Remove(rest, NULL_SEQUENCE);
    }
  }

  lemma BrokenOff(j: nat, k: nat, end: string)
    requires j < k < 6
    ensures !(NULL_SEQUENCE <= NULL_SEQUENCE[..k][j..] + (NULL_SEQUENCE + end))
  {
    var s := NULL_SEQUENCE[..k][j..] + (NULL_SEQUENCE + end);
    assert s[0] == NULL_SEQUENCE[j] && s[k - j] == NULL_SEQUENCE[0];
  }

  lemma NoNullByte(k: nat)
    requires k < 6
    ensures '\0' !in NULL_SEQUENCE[..k] + (NULL_SEQUENCE + NULL_SEQUENCE[k..])
  {
  }

  /** A null sequence put into another one, at any place, leaves one. */
  lemma {:induction false} NestedLeavesOne(k: nat)
    requires 0 < k < 6
    ensures Sanitize(NULL_SEQUENCE[..k] + NULL_SEQUENCE + NULL_SEQUENCE[k..]) == NULL_SEQUENCE
  {
    var start, end := NULL_SEQUENCE[..k], NULL_SEQUENCE[k..];
    var rest := NULL_SEQUENCE + end;
    assert start + NULL_SEQUENCE + end == start + rest;
    NoNullByte(k);
    ReplaceCharAbsent(start + rest, '\0', "");
    forall j | 0 <= j < |start| ensures !(NULL_SEQUENCE <= start[j..] + rest) {
      BrokenOff(j, k, end);
    }
    StartStays(start, rest);
    assert rest[6..] == end;
    TooShort(end);
  }
}
