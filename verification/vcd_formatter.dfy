/**
 * `extract_vcd_data` (debugger/vcd_formatter.py) as a whole: correlate the log, rebuild
 * the timeline, normalise to hex, keep the rows around the violations, drop the mirrored
 * columns and render the CSV text handed to the analysis service.
 */
module VcdFormatter {
  import opened Wrappers
  import opened Sorting
  import opened Numerals
  import opened Correlator
  import opened Timeline
  import opened Window
  import opened Formatter

  /** The stages after reconstruction: hex normalisation, windowing around the violation
      times, and dropping the mirrored columns. */
  function Frame(tl: Timeline, viol: seq<real>, w: nat): Table
    requires WellShaped(tl.table)
  {
    var hexed := NormalizeHex(tl.table);
    DropMirrors(Select(hexed, tl.index, viol, w))
  }

  /** The table `extract_vcd_data` renders, for a parsed trace, the error log (`None` when
      absent) and the window radius in rows. */
  function ExtractFrame(signals: seq<Signal>, log: Option<string>, w: nat): Table {
    Frame(Reconstruct(signals), ViolationTimes(log), w)
  }

  /** The CSV text `extract_vcd_data` returns: its first line is the header of the
      rendered table, and every line ends with a newline. */
  function ExtractVcdData(signals: seq<Signal>, log: Option<string>, w: nat): (r: string)
    ensures HeadedCsv(r, ExtractFrame(signals, log, w).names)
  {
    ToCsv(ExtractFrame(signals, log, w))
  }

  /** The index of a timeline locates each of its rows by time. */
  ghost predicate Indexed(tl: Timeline) {
    forall i :: 0 <= i < |tl.table.rows| ==>
      tl.table.rows[i].time in tl.index && tl.index[tl.table.rows[i].time] == i
  }

  /** The rows of a timeline are the change times of `signals`, ascending, and its index
      names no other time. */
  ghost predicate RowsAtEvents(signals: seq<Signal>, tl: Timeline) {
    && StrictlyAscending(Times(tl.table))
    && (forall t :: t in Times(tl.table) <==> t in EventTimes(signals))
    && (forall t :: t in tl.index ==> t in EventTimes(signals))
  }

  /** Every cell of a timeline holds its signal's value at the row's time. */
  ghost predicate CellsHold(signals: seq<Signal>, tl: Timeline)
    requires |tl.table.names| == |signals| && WellShaped(tl.table)
  {
    forall i, s :: 0 <= i < |tl.table.rows| && 0 <= s < |signals| ==>
      HoldsAt(signals[s].changes, tl.table.rows[i].time, tl.table.rows[i].cells[s])
  }

  /** What reconstruction promises about a timeline built from `signals`. */
  ghost predicate Rebuilt(signals: seq<Signal>, tl: Timeline) {
    && WellShaped(tl.table)
    && |tl.table.names| == |signals|
    && (forall s :: 0 <= s < |signals| ==> tl.table.names[s] == signals[s].name)
    && RowsAtEvents(signals, tl)
    && Indexed(tl)
    && CellsHold(signals, tl)
  }

  lemma ReconstructRebuilt(signals: seq<Signal>)
    ensures Rebuilt(signals, Reconstruct(signals))
  {
  }

  /** The change times a violation time of the log names exactly. */
  ghost function NamedTimes(signals: seq<Signal>, viol: seq<real>): set<nat> {
    set t | t in EventTimes(signals) && (t as real) in viol
  }

  /** The row times of a rebuilt timeline are exactly its index keys. */
  lemma IndexKeys(signals: seq<Signal>, tl: Timeline)
    requires Indexed(tl) && RowsAtEvents(signals, tl)
    ensures forall t :: t in tl.index <==> t in EventTimes(signals)
  {
    forall t | t in EventTimes(signals)
      ensures t in tl.index
    {
      assert t in Times(tl.table);
      var i :| 0 <= i < |tl.table.rows| && Times(tl.table)[i] == t;
      assert tl.table.rows[i].time == t;
    }
  }

  /** The keys the windowing step names are the keys some violation time equals. */
  lemma {:induction false} MatchedKeysOver(index: map<nat, nat>, keys: set<nat>, viol: seq<real>)
    requires forall t :: t in index <==> t in keys
    ensures MatchedKeys(index, viol) == set t | t in keys && (t as real) in viol
    decreases |viol|
  {
    if |viol| > 0 {
      var pre := viol[..|viol| - 1];
      var last := viol[|viol| - 1];
      MatchedKeysOver(index, keys, pre);
      assert viol == pre + [last];
      forall t | t in keys && (t as real) in viol
        ensures t in MatchedKeys(index, viol)
      {
        if (t as real) !in pre {
          assert last == t as real;
          assert MatchedKey(last, index) == Some(t);
        }
      }
    }
  }

  /** The columns of the frame are the signals that are not mirrors, in trace order. */
  lemma FrameColumns(signals: seq<Signal>, tl: Timeline, viol: seq<real>, w: nat)
    requires Rebuilt(signals, tl)
    ensures var f := Frame(tl, viol, w);
      var keep := Positions(tl.table.names, IsKept);
      && |f.names| == |keep|
      && (forall k :: 0 <= k < |keep| ==> keep[k] < |signals| && f.names[k] == signals[keep[k]].name)
      && (forall k :: 0 <= k < |f.names| ==> !IsMirror(f.names[k]))
  {
  }

  /** Each frame row has the time and, column by column, the contents of some row of the
      hex-normalised timeline. */
  lemma FrameRowOrigin(signals: seq<Signal>, tl: Timeline, viol: seq<real>, w: nat, i: nat)
    requires Rebuilt(signals, tl)
    requires i < |Frame(tl, viol, w).rows|
    ensures var keep := Positions(tl.table.names, IsKept);
      exists j :: 0 <= j < |tl.table.rows| &&
        Frame(tl, viol, w).rows[i].time == tl.table.rows[j].time &&
        forall k :: 0 <= k < |keep| ==>
          Frame(tl, viol, w).rows[i].cells[k] == NormalizeHex(tl.table).rows[j].cells[keep[k]]
  {
    var hexed := NormalizeHex(tl.table);
    var windowed := Select(hexed, tl.index, viol, w);
    SelectKeepsOrder(hexed, tl.index, viol, w);
    assert windowed.rows[i] in hexed.rows;
    var j :| 0 <= j < |hexed.rows| && windowed.rows[i] == hexed.rows[j];
    assert Frame(tl, viol, w).rows[i].time == hexed.rows[j].time;
  }

  /** The rows of the frame ascend strictly by time, and each sits at a change time. */
  lemma FrameRowTimes(signals: seq<Signal>, tl: Timeline, viol: seq<real>, w: nat)
    requires Rebuilt(signals, tl)
    ensures var f := Frame(tl, viol, w);
      && StrictlyAscending(Times(f))
      && (forall i :: 0 <= i < |f.rows| ==> f.rows[i].time in EventTimes(signals))
  {
    var hexed := NormalizeHex(tl.table);
    var windowed := Select(hexed, tl.index, viol, w);
    var f := Frame(tl, viol, w);
    assert Times(hexed) == Times(tl.table);
    SelectKeepsOrder(hexed, tl.index, viol, w);
    assert Times(f) == Times(windowed);
    forall i | 0 <= i < |f.rows|
      ensures f.rows[i].time in EventTimes(signals)
    {
      FrameRowOrigin(signals, tl, viol, w, i);
      var j :| 0 <= j < |tl.table.rows| && f.rows[i].time == tl.table.rows[j].time;
      assert Times(tl.table)[j] == f.rows[i].time;
    }
  }

  /** With no violation time, every change time keeps its row. */
  lemma FrameAllRows(signals: seq<Signal>, tl: Timeline, w: nat)
    requires Rebuilt(signals, tl)
    ensures |Frame(tl, [], w).rows| == |EventTimes(signals)|
  {
    var ts := Times(tl.table);
    var sorted := SetToSorted(EventTimes(signals));
    AscendingUnique(ts, sorted);
  }

  /** A change time some violation time names keeps its own row. */
  lemma NamedTimeKept(signals: seq<Signal>, tl: Timeline, viol: seq<real>, w: nat, t: nat)
    requires WellShaped(tl.table) && Indexed(tl) && RowsAtEvents(signals, tl)
    requires t in tl.index && (t as real) in viol
    ensures t in Times(Select(NormalizeHex(tl.table), tl.index, viol, w))
  {
    var hexed := NormalizeHex(tl.table);
    var v :| 0 <= v < |viol| && viol[v] == t as real;
    assert MatchedKey(viol[v], tl.index) == Some(t);
    assert Times(hexed) == Times(tl.table);
    NamedRowSelected(hexed, tl.index, viol, w, v);
  }

  /** With violation times, at most `2W + 1` rows are kept per change time they name. */
  lemma FrameSize(signals: seq<Signal>, tl: Timeline, viol: seq<real>, w: nat)
    requires WellShaped(tl.table) && Indexed(tl) && RowsAtEvents(signals, tl) && |viol| > 0
    ensures |Select(NormalizeHex(tl.table), tl.index, viol, w).rows| <= (2 * w + 1) * |NamedTimes(signals, viol)|
  {
    var n := |tl.table.rows|;
    IndexKeys(signals, tl);
    MatchedKeysOver(tl.index, EventTimes(signals), viol);
    KeptRowsSize(tl.index, viol, n, w);
    assert MatchedKeys(tl.index, viol) == NamedTimes(signals, viol);
  }

  /** With violation times, at most `2W + 1` rows are kept per change time they name, and
      every named change time keeps its own row. */
  lemma FrameWindowed(signals: seq<Signal>, tl: Timeline, viol: seq<real>, w: nat)
    requires Rebuilt(signals, tl) && |viol| > 0
    ensures var f := Frame(tl, viol, w);
      && |f.rows| <= (2 * w + 1) * |NamedTimes(signals, viol)|
      && (forall t :: t in NamedTimes(signals, viol) ==> t in Times(f))
  {
    var windowed := Select(NormalizeHex(tl.table), tl.index, viol, w);
    assert Times(Frame(tl, viol, w)) == Times(windowed);
    FrameSize(signals, tl, viol, w);
    IndexKeys(signals, tl);
    forall t | t in NamedTimes(signals, viol)
      ensures t in Times(windowed)
    {
      NamedTimeKept(signals, tl, viol, w, t);
    }
  }

  /** The shape of the rendered table: the columns are the signals that are not mirrors,
      in trace order; the rows ascend strictly by time, each at a change time; with no
      violation in the log every change time has its row, and otherwise at most `2W + 1`
      rows are kept per change time the log names, each such time keeping its own row. */
  lemma ExtractFrameShape(signals: seq<Signal>, log: Option<string>, w: nat)
    ensures var f := ExtractFrame(signals, log, w);
      var viol := ViolationTimes(log);
      var keep := Positions(Reconstruct(signals).table.names, IsKept);
      && |f.names| == |keep|
      && (forall k :: 0 <= k < |keep| ==> keep[k] < |signals| && f.names[k] == signals[keep[k]].name)
      && (forall k :: 0 <= k < |f.names| ==> !IsMirror(f.names[k]))
      && StrictlyAscending(Times(f))
      && (forall i :: 0 <= i < |f.rows| ==> f.rows[i].time in EventTimes(signals))
      && (|viol| == 0 ==> |f.rows| == |EventTimes(signals)|)
      && (|viol| > 0 ==> |f.rows| <= (2 * w + 1) * |NamedTimes(signals, viol)|)
      && (forall t :: t in NamedTimes(signals, viol) ==> t in Times(f))
  {
    var tl := Reconstruct(signals);
    var viol := ViolationTimes(log);
    ReconstructRebuilt(signals);
    FrameColumns(signals, tl, viol, w);
    FrameRowTimes(signals, tl, viol, w);
    if |viol| == 0 {
      FrameAllRows(signals, tl, w);
    } else {
      FrameWindowed(signals, tl, viol, w);
    }
  }

  /** A value as the CSV shows it: the held value itself, or its hex form when the
      column was converted. */
  ghost predicate ShownAs(c: seq<Change>, t: nat, out: Cell) {
    || HoldsAt(c, t, out)
    || exists v :: HoldsAt(c, t, Some(v)) && IsNumeral(v, 2) && out == Some(ToHex(v))
  }

  /** Last-value hold survives the stages after reconstruction. */
  lemma FrameShowsHeldValues(signals: seq<Signal>, tl: Timeline, viol: seq<real>, w: nat, i: nat, k: nat)
    requires Rebuilt(signals, tl)
    requires i < |Frame(tl, viol, w).rows| && k < |Frame(tl, viol, w).names|
    ensures var s := Positions(tl.table.names, IsKept)[k];
      s < |signals| && ShownAs(signals[s].changes, Frame(tl, viol, w).rows[i].time, Frame(tl, viol, w).rows[i].cells[k])
  {
    var f := Frame(tl, viol, w);
    var keep := Positions(tl.table.names, IsKept);
    FrameColumns(signals, tl, viol, w);
    var s := keep[k];
    FrameRowOrigin(signals, tl, viol, w, i);
    var j :| 0 <= j < |tl.table.rows| && f.rows[i].time == tl.table.rows[j].time &&
      forall k' :: 0 <= k' < |keep| ==> f.rows[i].cells[k'] == NormalizeHex(tl.table).rows[j].cells[keep[k']];
    assert f.rows[i].cells[k] == NormalizeHex(tl.table).rows[j].cells[s];
    assert HoldsAt(signals[s].changes, tl.table.rows[j].time, tl.table.rows[j].cells[s]);
    HexedCellShown(tl.table, signals[s].changes, j, s);
  }

  /** A cell that holds its signal's value is shown as that value after hex
      normalisation. */
  lemma HexedCellShown(t: Table, c: seq<Change>, j: nat, s: nat)
    requires WellShaped(t) && j < |t.rows| && s < |t.names|
    requires HoldsAt(c, t.rows[j].time, t.rows[j].cells[s])
    ensures ShownAs(c, t.rows[j].time, NormalizeHex(t).rows[j].cells[s])
  {
    var held := t.rows[j].cells[s];
    if ColumnIsBinary(t, s) && held.Some? {
      assert NormalizeHex(t).rows[j].cells[s] == Some(ToHex(held.value));
    }
  }

  /** Last-value hold survives the pipeline: every cell of the rendered table, in the
      column of signal `s`, shows the value `s` holds at the row's time, either as is or
      converted to hex. */
  lemma ExtractShowsHeldValues(signals: seq<Signal>, log: Option<string>, w: nat, i: nat, k: nat)
    requires i < |ExtractFrame(signals, log, w).rows|
    requires k < |ExtractFrame(signals, log, w).names|
    ensures var f := ExtractFrame(signals, log, w);
      var s := Positions(Reconstruct(signals).table.names, IsKept)[k];
      s < |signals| && ShownAs(signals[s].changes, f.rows[i].time, f.rows[i].cells[k])
  {
    ReconstructRebuilt(signals);
    FrameShowsHeldValues(signals, Reconstruct(signals), ViolationTimes(log), w, i, k);
  }
}
