/** What arrives in the database of a cell handed to the COPY encoder. */
module CopyCells {
  import opened Common
  import opened PhpStrings
  import opened CopyText

  lemma {:induction false} StoredAt(columns: seq<string>, row: Row, c: nat)
    requires c < |columns|
    ensures |StoredRow(columns, row)| == |columns|
    ensures StoredRow(columns, row)[c] == StoredCell(Lookup(row, columns[c]))
  {
    StoredLength(columns, row);
    if c > 0 {
      StoredAt(columns[1..], row, c - 1);
    }
  }

  lemma {:induction false} StoredLength(columns: seq<string>, row: Row)
    ensures |StoredRow(columns, row)| == |columns|
  {
    if columns != [] {
      StoredLength(columns[1..], row);
    }
  }

  lemma {:induction false} StoredRowAt(columns: seq<string>, rows: seq<Row>, r: nat)
    requires r < |rows|
    ensures |StoredRows(columns, rows)| == |rows| && StoredRows(columns, rows)[r] == StoredRow(columns, rows[r])
  {
    StoredRowsLength(columns, rows);
    if r > 0 {
      StoredRowAt(columns, rows[1..], r - 1);
    }
  }

  lemma {:induction false} StoredRowsLength(columns: seq<string>, rows: seq<Row>)
    ensures |StoredRows(columns, rows)| == |rows|
  {
    if rows != [] {
      StoredRowsLength(columns, rows[1..]);
    }
  }

  /** Every cell of a batch arrives at its row and column: null for a null or a missing one, t or f, or the text. */
  lemma {:induction false} CellsArrive(columns: seq<string>, rows: seq<Row>, r: nat, c: nat)
    requires r < |rows| && c < |columns|
    ensures var stored := DecodeStream(Stream(Lines(columns, rows)));
      && |stored| == |rows| && |stored[r]| == |columns|
      && stored[r][c] ==
           if columns[c] !in rows[r] then None
           else match rows[r][columns[c]]
             case Null => None
             case Flag(true) => Some("t")
             case Flag(false) => Some("f")
             case Text(text) => Some(Sanitize(text))
  {
    StreamRoundTrip(columns, rows);
    StoredRowAt(columns, rows, r);
    StoredAt(columns, rows[r], c);
  }

  lemma EscapeConcat(a: string, b: string)
    ensures Escape(a + b) == Escape(a) + Escape(b)
  {
    ReplaceCharConcat(a, b, '\\', "\\\\");
    AfterTabConcat(ReplaceChar(a, '\\', "\\\\"), ReplaceChar(b, '\\', "\\\\"));
  }

  /** Each of the four special characters is escaped where it stands, and no other character changes. */
  lemma {:induction false} EachIsEscaped(before: string, c: char, behind: string)
    ensures Escape(before + [c] + behind) ==
      Escape(before)
      + (match c case '\\' => "\\\\" case '\t' => "\\t" case '\n' => "\\n" case '\r' => "\\r" case _ => [c])
      + Escape(behind)
  {
    EscapeConcat(before + [c], behind);
    EscapeConcat(before, [c]);
    EscapeCharwise([c]);
    assert [c][1..] == "";
  }

  lemma {:induction false} NothingRemoved(s: string, needle: string)
    requires needle != "" && !Occurs(needle, s)
    ensures Remove(s, needle) == s
  {
    if s != "" {
      OccursStep(needle, s[0], s[1..]);
      assert s == [s[0]] + s[1..];
      NothingRemoved(s[1..], needle);
    }
  }

  /** A text without a null byte or a null sequence is stored as it is. */
  lemma {:induction false} CleanTextStays(s: string)
    requires '\0' !in s && !Occurs("\\u0000", s)
    ensures Sanitize(s) == s
  {
    ReplaceCharAbsent(s, '\0', "");
    NothingRemoved(s, "\\u0000");
  }
}
