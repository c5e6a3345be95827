/**
 * The timeline reconstruction of `extract_vcd_data` (debugger/vcd_formatter.py): from
 * the sparse per-signal value changes of a value change dump it builds a dense table
 * with one row per distinct change time, holding each signal's last value, and a map
 * from each row time to its row index.
 *
 * The dump itself is read by a foreign library; the model starts from its result, a
 * sequence of signals each carrying its changes as (time, value text) pairs.
 */
module Timeline {
  import opened Wrappers
  import opened Sorting

  /** One recorded value change: at `time` picoseconds the signal took `value`. */
  datatype Change = Change(time: nat, value: string)

  /** A traced signal: its hierarchical name and its changes as the dump lists them. */
  datatype Signal = Signal(name: string, changes: seq<Change>)

  /** A table cell: a signal's value text, or `None` before its first change. */
  type Cell = Option<string>

  /** One table row: the time column, then one cell per signal column. */
  datatype Row = Row(time: nat, cells: seq<Cell>)

  /** A table: the signal column names (the time column comes first, unnamed here) and the rows. */
  datatype Table = Table(names: seq<string>, rows: seq<Row>)

  /** The reconstructed table and its map from row time to row index. */
  datatype Timeline = Timeline(table: Table, index: map<nat, nat>)

  /** Every row has one cell per named column. */
  predicate WellShaped(t: Table) {
    forall i :: 0 <= i < |t.rows| ==> |t.rows[i].cells| == |t.names|
  }

  /** The time column of a table. */
  function Times(t: Table): (r: seq<nat>)
    ensures |r| == |t.rows|
    ensures forall i :: 0 <= i < |t.rows| ==> r[i] == t.rows[i].time
  {
    seq(|t.rows|, i requires 0 <= i < |t.rows| => t.rows[i].time)
  }

  /** All change times of all signals. */
  function EventTimes(signals: seq<Signal>): set<nat> {
    set s, k | 0 <= s < |signals| && 0 <= k < |signals[s].changes| :: signals[s].changes[k].time
  }

  /** The position of the last-listed change at exactly time `t`, if there is one
      (`changes[-1]` of the changes at `t`). */
  function LastIndexAt(c: seq<Change>, t: nat): (r: Option<nat>)
    ensures r.Some? ==> r.value < |c| && c[r.value].time == t
    ensures r.Some? ==> forall j :: r.value < j < |c| ==> c[j].time != t
    ensures r.None? ==> forall j :: 0 <= j < |c| ==> c[j].time != t
  {
    if |c| == 0 then None
    else if c[|c| - 1].time == t then Some(|c| - 1)
    else
      var r := LastIndexAt(c[..|c| - 1], t);
      assert forall j :: 0 <= j < |c| - 1 ==> c[j] == c[..|c| - 1][j];
      r
  }

  /** The value a signal holds in row `i` of a table whose row times are `times`: the
      value of its last-listed change at `times[i]` if it has one there, otherwise what
      it held in the previous row, and `None` before the first row with a change. */
  function Held(c: seq<Change>, times: seq<nat>, i: nat): (r: Cell)
    requires i < |times|
  {
    match LastIndexAt(c, times[i])
    case Some(k) => Some(c[k].value)
    case None => if i == 0 then None else Held(c, times, i - 1)
  }

  /** The held value comes from a change at one of the rows so far, and there is none
      only when no change falls on any of those rows. */
  lemma {:induction false} HeldTraces(c: seq<Change>, times: seq<nat>, i: nat)
    requires i < |times|
    ensures Held(c, times, i).Some? ==> ChangedTo(c, times, i, Held(c, times, i).value)
    ensures Held(c, times, i).None? ==> SilentThrough(c, times, i)
    decreases i
  {
    match LastIndexAt(c, times[i])
    case Some(k) =>
      assert c[k].time == times[i];
    case None =>
      if i > 0 {
        HeldTraces(c, times, i - 1);
        if Held(c, times, i).Some? {
          var k, m :| 0 <= k < |c| && 0 <= m <= i - 1 && c[k].time == times[m]
            && c[k].value == Held(c, times, i).value;
          assert ChangedTo(c, times, i, Held(c, times, i).value);
        }
      }
  }

  /** Some change at one of the first `i + 1` row times sets the value `v`. */
  predicate ChangedTo(c: seq<Change>, times: seq<nat>, i: nat, v: string)
    requires i < |times|
  {
    exists k, m :: 0 <= k < |c| && 0 <= m <= i && c[k].time == times[m] && c[k].value == v
  }

  /** No change falls on any of the first `i + 1` row times. */
  predicate SilentThrough(c: seq<Change>, times: seq<nat>, i: nat)
    requires i < |times|
  {
    forall k, m :: 0 <= k < |c| && 0 <= m <= i ==> c[k].time != times[m]
  }

  /** Change `k` is the last-listed one at the greatest change time not after `t`. */
  ghost predicate IsLatestAt(c: seq<Change>, t: nat, k: int) {
    && 0 <= k < |c| && c[k].time <= t
    && (forall j :: 0 <= j < |c| && c[j].time <= t ==> c[j].time <= c[k].time)
    && (forall j :: k < j < |c| ==> c[j].time != c[k].time)
  }

  /** Last-value hold, stated directly: at time `t` a signal holds the value of its
      last-listed change at the greatest change time not after `t`, and nothing when it
      has no change up to `t`. */
  ghost predicate HoldsAt(c: seq<Change>, t: nat, cell: Cell) {
    match cell
    case None => forall j :: 0 <= j < |c| ==> c[j].time > t
    case Some(v) => exists k :: IsLatestAt(c, t, k) && c[k].value == v
  }

  /** The held value is determined by the changes: at most one cell holds at any time. */
  lemma HoldsAtUnique(c: seq<Change>, t: nat, a: Cell, b: Cell)
    requires HoldsAt(c, t, a) && HoldsAt(c, t, b)
    ensures a == b
  {
    if a.Some? && b.Some? {
      var ka :| IsLatestAt(c, t, ka) && c[ka].value == a.value;
      var kb :| IsLatestAt(c, t, kb) && c[kb].value == b.value;
      assert c[ka].time == c[kb].time;
      if ka < kb {
        assert false;
      } else if kb < ka {
        assert false;
      }
    }
  }

  /** Two times before which exactly the same changes lie see the same held value. */
  lemma HoldsAtSameHistory(c: seq<Change>, t1: nat, t2: nat, cell: Cell)
    requires forall j :: 0 <= j < |c| ==> (c[j].time <= t1 <==> c[j].time <= t2)
    requires HoldsAt(c, t1, cell)
    ensures HoldsAt(c, t2, cell)
  {
    if cell.Some? {
      var k :| IsLatestAt(c, t1, k) && c[k].value == cell.value;
      assert IsLatestAt(c, t2, k);
    }
  }

  /** The row-by-row carry computes last-value hold, provided the row times ascend
      strictly and include every change time of the signal. */
  lemma {:induction false} HeldIsLastValueHold(c: seq<Change>, times: seq<nat>, i: nat)
    requires StrictlyAscending(times)
    requires ChangesAmong(c, times)
    requires i < |times|
    ensures HoldsAt(c, times[i], Held(c, times, i))
    decreases i
  {
    if i > 0 {
      HeldIsLastValueHold(c, times, i - 1);
    }
    HeldStep(c, times, i);
  }

  /** One row of the carry: given that the previous row holds the right value, so does
      row `i`. */
  lemma HeldStep(c: seq<Change>, times: seq<nat>, i: nat)
    requires StrictlyAscending(times)
    requires ChangesAmong(c, times)
    requires i < |times|
    requires i > 0 ==> HoldsAt(c, times[i - 1], Held(c, times, i - 1))
    ensures HoldsAt(c, times[i], Held(c, times, i))
  {
    ChangesAmongAll(c, times);
    if LastIndexAt(c, times[i]).Some? {
      HeldAtChange(c, times, i);
    } else if i == 0 {
      NoChangeBeforeFirstRow(c, times);
    } else {
      HeldCarried(c, times, i);
    }
  }

  /** Every change time of `c` is one of `times`, stated change by change. */
  predicate ChangesAmong(c: seq<Change>, times: seq<nat>)
    decreases |c|
  {
    |c| == 0 || (c[0].time in times && ChangesAmong(c[1..], times))
  }

  /** The change-by-change statement says the same as the quantified one. */
  lemma {:induction false} ChangesAmongAll(c: seq<Change>, times: seq<nat>)
    ensures ChangesAmong(c, times) <==> forall j :: 0 <= j < |c| ==> c[j].time in times
    decreases |c|
  {
    if |c| > 0 {
      ChangesAmongAll(c[1..], times);
      assert forall j :: 1 <= j < |c| ==> c[j] == c[1..][j - 1];
    }
  }

  /** In a row time at which the signal changes, the carry holds the last-listed change
      there, and that is the latest change up to the row. */
  lemma HeldAtChange(c: seq<Change>, times: seq<nat>, i: nat)
    requires i < |times| && LastIndexAt(c, times[i]).Some?
    ensures HoldsAt(c, times[i], Held(c, times, i))
  {
    var k := LastIndexAt(c, times[i]).value;
    assert IsLatestAt(c, times[i], k);
  }

  /** In a row time at which the signal does not change, the carry keeps the previous
      row's value, and the same changes lie up to either row. */
  lemma HeldCarried(c: seq<Change>, times: seq<nat>, i: nat)
    requires StrictlyAscending(times) && 0 < i < |times|
    requires forall j :: 0 <= j < |c| ==> c[j].time in times
    requires LastIndexAt(c, times[i]).None?
    requires HoldsAt(c, times[i - 1], Held(c, times, i - 1))
    ensures HoldsAt(c, times[i], Held(c, times, i))
  {
    NoChangeBetweenRows(c, times, i);
    HoldsAtSameHistory(c, times[i - 1], times[i], Held(c, times, i - 1));
  }

  /** With every change time among the ascending row times and none at the first row,
      every change lies after the first row. */
  lemma NoChangeBeforeFirstRow(c: seq<Change>, times: seq<nat>)
    requires StrictlyAscending(times) && |times| > 0
    requires forall j :: 0 <= j < |c| ==> c[j].time in times
    requires LastIndexAt(c, times[0]).None?
    ensures HoldsAt(c, times[0], Held(c, times, 0))
  {
    forall j | 0 <= j < |c|
      ensures c[j].time > times[0]
    {
      var m :| 0 <= m < |times| && times[m] == c[j].time;
      assert m != 0;
    }
  }

  /** With every change time among the ascending row times and none at row `i`, the
      same changes lie up to row `i - 1` as up to row `i`. */
  lemma NoChangeBetweenRows(c: seq<Change>, times: seq<nat>, i: nat)
    requires StrictlyAscending(times) && 0 < i < |times|
    requires forall j :: 0 <= j < |c| ==> c[j].time in times
    requires LastIndexAt(c, times[i]).None?
    ensures forall j :: 0 <= j < |c| ==> (c[j].time <= times[i - 1] <==> c[j].time <= times[i])
  {
    forall j | 0 <= j < |c|
      ensures c[j].time <= times[i - 1] <==> c[j].time <= times[i]
    {
      var m :| 0 <= m < |times| && times[m] == c[j].time;
      assert m != i;
    }
  }


  /** The map from row time to row index, written row by row (`time_to_index[t] = idx`). */
  function IndexMap(times: seq<nat>, n: nat): (m: map<nat, nat>)
    requires n <= |times|
    ensures forall i :: 0 <= i < n ==> times[i] in m
    ensures forall t :: t in m ==> m[t] < n && times[m[t]] == t
  {
    if n == 0 then map[] else IndexMap(times, n - 1)[times[n - 1] := n - 1]
  }

  /** The row of the table for row time `times[i]`. */
  function BuildRow(signals: seq<Signal>, times: seq<nat>, i: nat): (r: Row)
    requires i < |times|
    ensures r.time == times[i] && |r.cells| == |signals|
  {
    Row(times[i], seq(|signals|, s requires 0 <= s < |signals| => Held(signals[s].changes, times, i)))
  }

  /** Every cell of every row built over the sorted change times is the held value. */
  lemma RowsHold(signals: seq<Signal>, times: seq<nat>)
    requires StrictlyAscending(times)
    requires forall t :: t in times <==> t in EventTimes(signals)
    ensures forall i, s :: 0 <= i < |times| && 0 <= s < |signals| ==>
      HoldsAt(signals[s].changes, times[i], BuildRow(signals, times, i).cells[s])
  {
    forall i, s | 0 <= i < |times| && 0 <= s < |signals|
      ensures HoldsAt(signals[s].changes, times[i], BuildRow(signals, times, i).cells[s])
    {
      var c := signals[s].changes;
      forall j | 0 <= j < |c|
        ensures c[j].time in times
      {
        assert c[j].time in EventTimes(signals);
      }
      ChangesAmongAll(c, times);
      HeldIsLastValueHold(c, times, i);
    }
  }

  /** With strictly ascending times, each row time maps back to its own row. */
  lemma IndexMapExact(times: seq<nat>)
    requires StrictlyAscending(times)
    ensures forall i :: 0 <= i < |times| ==>
      times[i] in IndexMap(times, |times|) && IndexMap(times, |times|)[times[i]] == i
  {
    var m := IndexMap(times, |times|);
    forall i | 0 <= i < |times|
      ensures m[times[i]] == i
    {
      var j := m[times[i]];
      assert times[j] == times[i];
    }
  }

  /** Each row of a table over strictly ascending times is found by its time. */
  lemma RowsIndexed(t: Table, times: seq<nat>)
    requires StrictlyAscending(times) && Times(t) == times
    ensures var m := IndexMap(times, |times|);
      && (forall i :: 0 <= i < |t.rows| ==> t.rows[i].time in m && m[t.rows[i].time] == i)
      && (forall x :: x in m ==> x in times)
  {
    IndexMapExact(times);
    forall i | 0 <= i < |t.rows|
      ensures t.rows[i].time == times[i]
    {
      assert Times(t)[i] == t.rows[i].time;
    }
  }

  /** The reconstructed timeline of a trace: one row per distinct change time in
      ascending order, each cell holding the signal's last value (the last-listed change
      winning among changes at the same time, `None` before the signal's first change),
      and the map from each row time to its row index. */
  function Reconstruct(signals: seq<Signal>): (tl: Timeline)
    ensures WellShaped(tl.table)
    ensures |tl.table.names| == |signals|
    ensures forall s :: 0 <= s < |signals| ==> tl.table.names[s] == signals[s].name
    ensures StrictlyAscending(Times(tl.table))
    ensures forall t :: t in Times(tl.table) <==> t in EventTimes(signals)
    ensures forall i, s :: 0 <= i < |tl.table.rows| && 0 <= s < |signals| ==>
      HoldsAt(signals[s].changes, tl.table.rows[i].time, tl.table.rows[i].cells[s])
    ensures forall i :: 0 <= i < |tl.table.rows| ==>
      tl.table.rows[i].time in tl.index && tl.index[tl.table.rows[i].time] == i
    ensures forall t :: t in tl.index ==> t in EventTimes(signals)
  {
    var times := SetToSorted(EventTimes(signals));
    var table := TimeTable(signals, times);
    RowsIndexed(table, times);
    Timeline(table, IndexMap(times, |times|))
  }

  /** The table over the given row times: one column per signal, one row per time, each
      cell holding its signal's value at the row's time. */
  function TimeTable(signals: seq<Signal>, times: seq<nat>): (t: Table)
    requires StrictlyAscending(times)
    requires forall x :: x in times <==> x in EventTimes(signals)
    ensures WellShaped(t) && |t.names| == |signals|
    ensures forall s :: 0 <= s < |signals| ==> t.names[s] == signals[s].name
    ensures Times(t) == times
    ensures forall i, s :: 0 <= i < |t.rows| && 0 <= s < |signals| ==>
      HoldsAt(signals[s].changes, t.rows[i].time, t.rows[i].cells[s])
  {
    var names := seq(|signals|, s requires 0 <= s < |signals| => signals[s].name);
    var rows := seq(|times|, i requires 0 <= i < |times| => BuildRow(signals, times, i));
    var table := Table(names, rows);
    assert Times(table) == times;
    RowsHold(signals, times);
    table
  }

  /** A signal that never changes gives a column of `None` in every row. */
  lemma SilentSignalColumn(signals: seq<Signal>, s: nat, i: nat)
    requires s < |signals| && |signals[s].changes| == 0
    requires i < |Reconstruct(signals).table.rows|
    ensures Reconstruct(signals).table.rows[i].cells[s] == None
  {
    var tl := Reconstruct(signals);
    var cell := tl.table.rows[i].cells[s];
    assert HoldsAt(signals[s].changes, tl.table.rows[i].time, cell);
  }
}
