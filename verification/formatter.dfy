/**
 * The format normaliser of `extract_vcd_data` (debugger/vcd_formatter.py): the per-column
 * rewrite of binary values to hexadecimal, the removal of the mirrored `$rootio` columns,
 * and the rendering of the table as CSV text with a `Time` column first.
 */
module Formatter {
  import opened Wrappers
  import opened Text
  import opened Numerals
  import opened Sorting
  import opened Timeline

  /** `hex(int(bits, 2))`: the binary value written as `0x` and lower-case hex digits. */
  function ToHex(bits: string): (h: string)
    requires IsNumeral(bits, 2)
    ensures |h| >= 3 && h[..2] == "0x"
    ensures IsNumeral(h[2..], 16) && ValueOf(h[2..], 16) == ValueOf(bits, 2)
    ensures |h| > 3 ==> h[2] != '0'
  {
    var digits := Numeral(ValueOf(bits, 2), 16);
    NumeralRoundTrip(ValueOf(bits, 2), 16);
    var h := "0x" + digits;
    assert h[2..] == digits;
    h
  }

  /** Every value in column `j` is a binary numeral, so the whole column converts. */
  predicate ColumnIsBinary(t: Table, j: nat)
    requires WellShaped(t) && j < |t.names|
  {
    forall i :: 0 <= i < |t.rows| ==> t.rows[i].cells[j].Some? ==> IsNumeral(t.rows[i].cells[j].value, 2)
  }

  /** The cell of a converted column. */
  function HexCell(c: Cell): (r: Cell)
    requires c.Some? ==> IsNumeral(c.value, 2)
    ensures r.Some? <==> c.Some?
  {
    match c
    case None => None
    case Some(v) => Some(ToHex(v))
  }

  /** The hex normalisation of a table: each column whose values are all binary has them
      rewritten to hex; a column with any other value is left exactly as it was. */
  function NormalizeHex(t: Table): (r: Table)
    requires WellShaped(t)
    ensures WellShaped(r) && r.names == t.names && |r.rows| == |t.rows|
    ensures forall i :: 0 <= i < |t.rows| ==> r.rows[i].time == t.rows[i].time
    ensures forall j :: 0 <= j < |t.names| && !ColumnIsBinary(t, j) ==>
      forall i :: 0 <= i < |t.rows| ==> r.rows[i].cells[j] == t.rows[i].cells[j]
    ensures forall j :: 0 <= j < |t.names| && ColumnIsBinary(t, j) ==>
      forall i :: 0 <= i < |t.rows| ==> r.rows[i].cells[j] == HexCell(t.rows[i].cells[j])
  {
    var binary := seq(|t.names|, j requires 0 <= j < |t.names| => ColumnIsBinary(t, j));
    Table(t.names, seq(|t.rows|, i requires 0 <= i < |t.rows| =>
      Row(t.rows[i].time, seq(|t.names|, j requires 0 <= j < |t.names| =>
        if binary[j] then HexCell(t.rows[i].cells[j]) else t.rows[i].cells[j]))))
  }

  /** A hex text is never binary: its `x` is no binary digit. */
  lemma HexIsNotBinary(bits: string)
    requires IsNumeral(bits, 2)
    ensures !IsNumeral(ToHex(bits), 2)
  {
    assert ToHex(bits)[1] == 'x';
  }

  /** Normalising twice changes nothing more: a converted column holds hex text, which no
      longer converts, or holds no value at all. */
  lemma NormalizeHexIdempotent(t: Table)
    requires WellShaped(t)
    ensures NormalizeHex(NormalizeHex(t)) == NormalizeHex(t)
  {
    var r := NormalizeHex(t);
    var rr := NormalizeHex(r);
    forall i, j | 0 <= i < |t.rows| && 0 <= j < |t.names|
      ensures rr.rows[i].cells[j] == r.rows[i].cells[j]
    {
      if ColumnIsBinary(r, j) {
        if r.rows[i].cells[j].Some? {
          if ColumnIsBinary(t, j) {
            HexIsNotBinary(t.rows[i].cells[j].value);
            assert false;
          }
        }
      }
    }
    forall i | 0 <= i < |t.rows|
      ensures rr.rows[i] == r.rows[i]
    {
      assert rr.rows[i].cells == r.rows[i].cells;
    }
    assert rr.rows == r.rows;
  }

  /** The prefix of the simulator's mirrored top-level signals. */
  const MirrorPrefix := "$rootio"

  /** A column name that starts with the mirror prefix (`str.startswith('$rootio')`). */
  predicate IsMirror(name: string) {
    |name| >= |MirrorPrefix| && name[..|MirrorPrefix|] == MirrorPrefix
  }

  /** A column name that survives the column filter. */
  predicate IsKept(name: string) {
    !IsMirror(name)
  }

  /** The table without its mirrored columns: the surviving columns keep their order,
      their names and every value. */
  function DropMirrors(t: Table): (r: Table)
    requires WellShaped(t)
    ensures WellShaped(r) && |r.rows| == |t.rows|
    ensures forall k :: 0 <= k < |r.names| ==> !IsMirror(r.names[k])
    ensures var keep := Positions(t.names, IsKept);
      && |r.names| == |keep|
      && (forall k :: 0 <= k < |keep| ==> r.names[k] == t.names[keep[k]])
      && (forall i, k :: 0 <= i < |t.rows| && 0 <= k < |keep| ==> r.rows[i].cells[k] == t.rows[i].cells[keep[k]])
    ensures forall i :: 0 <= i < |t.rows| ==> r.rows[i].time == t.rows[i].time
  {
    var keep := Positions(t.names, IsKept);
    Table(seq(|keep|, k requires 0 <= k < |keep| => t.names[keep[k]]),
          seq(|t.rows|, i requires 0 <= i < |t.rows| =>
            Row(t.rows[i].time, seq(|keep|, k requires 0 <= k < |keep| => t.rows[i].cells[keep[k]]))))
  }

  /** The text of a cell in the CSV: the value, or the empty field for no value. */
  function CellText(c: Cell): string {
    match c
    case None => ""
    case Some(v) => v
  }

  /** The header line: `Time`, then the column names. */
  function HeaderLine(names: seq<string>): string {
    Join(["Time"] + names, ",")
  }

  /** The fields of one data line: the decimal time, then each cell's text. */
  function RowFields(r: Row): (f: seq<string>)
    ensures |f| == 1 + |r.cells|
  {
    [Numeral(r.time, 10)] + seq(|r.cells|, k requires 0 <= k < |r.cells| => CellText(r.cells[k]))
  }

  /** The lines of the CSV text: the header, then one line per row. */
  function CsvLines(t: Table): (lines: seq<string>)
    ensures |lines| == 1 + |t.rows|
  {
    [HeaderLine(t.names)] + seq(|t.rows|, i requires 0 <= i < |t.rows| => Join(RowFields(t.rows[i]), ","))
  }

  /** `csv` opens with the header line for the column `names` and its newline, and ends
      with a newline. */
  predicate HeadedCsv(csv: string, names: seq<string>) {
    var h := HeaderLine(names);
    |csv| > |h| && csv[..|h| + 1] == h + "\n" && csv[|csv| - 1] == '\n'
  }

  /** `to_csv(index=False)`: every line of the table followed by a newline. */
  function ToCsv(t: Table): (r: string)
    ensures HeadedCsv(r, t.names)
  {
    TerminatedEnds(CsvLines(t));
    Terminated(CsvLines(t))
  }

  /** A character in no part and not the separator is nowhere in the join. */
  lemma {:induction false} JoinAvoids(parts: seq<string>, sep: string, c: char)
    requires c !in sep
    requires forall k :: 0 <= k < |parts| ==> c !in parts[k]
    ensures c !in Join(parts, sep)
    decreases |parts|
  {
    if |parts| > 1 {
      JoinAvoids(parts[1..], sep, c);
    }
  }

  /** A text pandas writes into a CSV field unquoted: no comma, newline, carriage return
      or double quote. */
  predicate Unquoted(x: string) {
    ',' !in x && '\n' !in x && '\r' !in x && '"' !in x
  }

  /** The table's texts are all written unquoted, so the CSV is exactly the fields joined. */
  predicate PlainTexts(t: Table) {
    && (forall k :: 0 <= k < |t.names| ==> Unquoted(t.names[k]))
    && (forall i, k :: 0 <= i < |t.rows| && 0 <= k < |t.rows[i].cells| ==>
          Unquoted(CellText(t.rows[i].cells[k])))
  }

  /** A decimal numeral has neither comma nor newline. */
  lemma NumeralPlain(n: nat)
    ensures ',' !in Numeral(n, 10) && '\n' !in Numeral(n, 10)
  {
    var s := Numeral(n, 10);
    forall k | 0 <= k < |s|
      ensures s[k] != ',' && s[k] != '\n'
    {
      assert DigitValue(s[k]) < 10;
    }
  }

  /** The CSV text can be read back: split on newlines it gives the header line, one line
      per row and the empty piece after the final newline; the header splits on commas into
      `Time` and the column names, and each row line into its decimal time and cell texts. */
  lemma CsvReadBack(t: Table)
    requires PlainTexts(t)
    ensures Split(ToCsv(t), "\n") == CsvLines(t) + [""]
    ensures Split(CsvLines(t)[0], ",") == ["Time"] + t.names
    ensures forall i :: 0 <= i < |t.rows| ==> Split(CsvLines(t)[i + 1], ",") == RowFields(t.rows[i])
  {
    HeaderReadBack(t);
    LinesReadBack(t);
    SplitTerminated(CsvLines(t));
  }

  /** Every CSV line is free of newlines, and each row line splits on commas into the
      row's fields. */
  lemma LinesReadBack(t: Table)
    requires PlainTexts(t)
    ensures forall i :: 0 <= i < |t.rows| ==> Split(CsvLines(t)[i + 1], ",") == RowFields(t.rows[i])
    ensures forall k :: 0 <= k < |CsvLines(t)| ==> '\n' !in CsvLines(t)[k]
  {
    var lines := CsvLines(t);
    HeaderReadBack(t);
    forall i | 0 <= i < |t.rows|
      ensures Split(lines[i + 1], ",") == RowFields(t.rows[i])
      ensures '\n' !in lines[i + 1]
    {
      RowReadBack(t, i);
    }
    forall k | 0 <= k < |lines|
      ensures '\n' !in lines[k]
    {
      if k > 0 { assert '\n' !in lines[(k - 1) + 1]; }
    }
  }

  /** The header line splits on commas into `Time` and the column names, and holds no
      newline. */
  lemma HeaderReadBack(t: Table)
    requires PlainTexts(t)
    ensures Split(HeaderLine(t.names), ",") == ["Time"] + t.names
    ensures '\n' !in HeaderLine(t.names)
  {
    var header := ["Time"] + t.names;
    forall k | 0 <= k < |header|
      ensures ","[0] !in header[k] && '\n' !in header[k]
    {
      if k > 0 { assert header[k] == t.names[k - 1]; }
    }
    SplitJoin(header, ",");
    JoinAvoids(header, ",", '\n');
  }

  /** A row line splits on commas into the row's fields, and holds no newline. */
  lemma RowReadBack(t: Table, i: nat)
    requires PlainTexts(t) && i < |t.rows|
    ensures Split(Join(RowFields(t.rows[i]), ","), ",") == RowFields(t.rows[i])
    ensures '\n' !in Join(RowFields(t.rows[i]), ",")
  {
    var f := RowFields(t.rows[i]);
    NumeralPlain(t.rows[i].time);
    forall k | 0 <= k < |f|
      ensures ","[0] !in f[k] && '\n' !in f[k]
    {
      if k > 0 { assert f[k] == CellText(t.rows[i].cells[k - 1]); }
    }
    SplitJoin(f, ",");
    JoinAvoids(f, ",", '\n');
  }

}
