/**
 * The body of a `[TABLE]` block (`parse_table_data`): the first non-blank line
 * holds the headers, the second is a separator and is skipped, and every further
 * non-blank line is a data row; cells are separated by `|` and stripped, and
 * short rows are padded with empty cells up to the header count.
 */
module TableParser {
  import opened Wrappers
  import opened Text

  datatype Table = Table(headers: seq<string>, rows: seq<seq<string>>)

  /** The non-blank lines of `lines`, in order. */
  function KeepNonBlank(lines: seq<string>): (r: seq<string>)
    ensures |r| <= |lines|
    ensures forall k :: 0 <= k < |r| ==> !IsBlank(r[k]) && r[k] in lines
    ensures forall k :: 0 <= k < |lines| && !IsBlank(lines[k]) ==> lines[k] in r
    decreases |lines|
  {
    if lines == [] then []
    else if IsBlank(lines[0]) then KeepNonBlank(lines[1..])
    else [lines[0]] + KeepNonBlank(lines[1..])
  }

  /** On one line the filter keeps it exactly when it is not blank. */
  lemma KeepNonBlankOne(line: string)
    ensures KeepNonBlank([line]) == if IsBlank(line) then [] else [line]
  {
    assert [line][1..] == [];
  }

  /** The filter works line by line: filtering a concatenation filters each part
      and keeps the results in order, so with `KeepNonBlankOne` it keeps every
      non-blank line, as often as it occurs, in its original order. */
  lemma {:induction false} KeepNonBlankAppend(a: seq<string>, b: seq<string>)
    ensures KeepNonBlank(a + b) == KeepNonBlank(a) + KeepNonBlank(b)
    decreases |a|
  {
    if a == [] {
      assert a + b == b;
    } else {
      assert (a + b)[0] == a[0];
      assert (a + b)[1..] == a[1..] + b;
      KeepNonBlankAppend(a[1..], b);
      AppendAssoc([a[0]], KeepNonBlank(a[1..]), KeepNonBlank(b));
    }
  }

  /** `[line for line in body.strip().split('\n') if line.strip()]`. */
  function NonBlankLines(body: string): seq<string> {
    KeepNonBlank(Split(Trim(body), '\n'))
  }

  /** `[c.strip() for c in line.split('|')]`: every cell, empty ones included. */
  function Cells(line: string): (cells: seq<string>)
    ensures |cells| == |Split(line, '|')|
  {
    var parts := Split(line, '|');
    seq(|parts|, k requires 0 <= k < |parts| => Trim(parts[k]))
  }

  /** `n` empty cells. */
  function Blanks(n: nat): (r: seq<string>)
    ensures |r| == n && forall k :: 0 <= k < n ==> r[k] == []
  {
    seq(n, _ => [])
  }

  /** A data row after padding to `width` columns; a longer row is left as it is. */
  function Pad(cells: seq<string>, width: nat): seq<string> {
    if |cells| < width then cells + Blanks(width - |cells|) else cells
  }

  /** Padding keeps the cells, adds only empty ones, and reaches `width` exactly
      when the row is short. */
  lemma PadShape(cells: seq<string>, width: nat)
    ensures |Pad(cells, width)| == if |cells| < width then width else |cells|
    ensures Pad(cells, width)[..|cells|] == cells
    ensures forall k :: |cells| <= k < |Pad(cells, width)| ==> Pad(cells, width)[k] == []
  {
    if |cells| < width {
      assert (cells + Blanks(width - |cells|))[..|cells|] == cells;
    }
  }

  /** What `parse_table_data(body)` returns: `None` for `(None, None)`. */
  function TableOf(body: string): Option<Table> {
    var lines := NonBlankLines(body);
    if |lines| < 2 then None
    else
      var headers := Cells(lines[0]);
      Some(Table(headers, seq(|lines| - 2, k requires 0 <= k < |lines| - 2 => Pad(Cells(lines[k + 2]), |headers|))))
  }

  /** The shape promised by `parse_table_data`: no table for fewer than two
      non-blank lines; otherwise the headers are the cells of the first line,
      the second line is dropped, and row `k` is line `k + 2`'s cells, padded. */
  lemma TableOfShape(body: string)
    ensures var lines := NonBlankLines(body);
            && (TableOf(body).None? <==> |lines| < 2)
            && (TableOf(body).Some? ==>
                  var t := TableOf(body).value;
                  && t.headers == Cells(lines[0])
                  && |t.headers| >= 1
                  && |t.rows| == |lines| - 2
                  && forall k :: 0 <= k < |t.rows| ==>
                       && |t.rows[k]| >= |t.headers|
                       && |t.rows[k]| >= |Cells(lines[k + 2])|
                       && t.rows[k][..|Cells(lines[k + 2])|] == Cells(lines[k + 2])
                       && (|Cells(lines[k + 2])| < |t.headers| ==> |t.rows[k]| == |t.headers|)
                       && (|Cells(lines[k + 2])| >= |t.headers| ==> t.rows[k] == Cells(lines[k + 2])))
  {
    var lines := NonBlankLines(body);
    if |lines| >= 2 {
      var t := TableOf(body).value;
      forall k | 0 <= k < |t.rows|
        ensures && |t.rows[k]| >= |t.headers|
                && |t.rows[k]| >= |Cells(lines[k + 2])|
                && t.rows[k][..|Cells(lines[k + 2])|] == Cells(lines[k + 2])
                && (|Cells(lines[k + 2])| < |t.headers| ==> |t.rows[k]| == |t.headers|)
                && (|Cells(lines[k + 2])| >= |t.headers| ==> t.rows[k] == Cells(lines[k + 2]))
      {
        assert t.rows[k] == Pad(Cells(lines[k + 2]), |t.headers|);
        PadShape(Cells(lines[k + 2]), |t.headers|);
      }
    }
  }

  /** `parse_table_data`: builds the rows one line at a time, extending short
      rows in place before appending them. */
  method ParseTableData(tableContent: string) returns (table: Option<Table>)
    ensures table == TableOf(tableContent)
  {
    var lines := NonBlankLines(tableContent);
    if |lines| < 2 {
      return None;
    }
    var headers := Cells(lines[0]);
    var rows: seq<seq<string>> := [];
    var i := 2;
    while i < |lines|
      invariant 2 <= i <= |lines|
      invariant |rows| == i - 2
      invariant forall k :: 0 <= k < i - 2 ==> rows[k] == Pad(Cells(lines[k + 2]), |headers|)
    {
      var rowData := Cells(lines[i]);
      if |rowData| < |headers| {
        rowData := rowData + Blanks(|headers| - |rowData|);
      }
      rows := rows + [rowData];
      i := i + 1;
    }
    table := Some(Table(headers, rows));
    assert table.value.rows == TableOf(tableContent).value.rows;
  }
}
