/**
 * The violation window selector of `extract_vcd_data` (debugger/vcd_formatter.py): it
 * keeps the rows within a radius of `W` rows around each violation time that names a
 * row of the table, as the ascending union of the clipped ranges.
 */
module Window {
  import opened Wrappers
  import opened Sorting
  import opened Timeline

  /** The row time a violation time names, if any: a reported time matches a row when
      it equals that row's integer time (`t in time_to_index`). */
  function MatchedKey(v: real, index: map<nat, nat>): (r: Option<nat>)
    ensures r.Some? ==> r.value in index && r.value as real == v
    ensures r.None? ==> forall t :: t in index ==> t as real != v
  {
    var t := v.Floor;
    if 0 <= t && (t as real) == v && (t as nat) in index then Some(t as nat) else None
  }

  /** The naturals `lo <= i < hi`. */
  function Range(lo: int, hi: int): (r: set<nat>)
    ensures forall i: nat :: i in r <==> lo <= i < hi
    decreases hi - lo
  {
    if hi <= lo || hi <= 0 then {} else Range(lo, hi - 1) + {hi - 1}
  }

  /** A range holds at most `hi - lo` numbers. */
  lemma {:induction false} RangeSize(lo: int, hi: int)
    ensures |Range(lo, hi)| <= if hi < lo then 0 else hi - lo
    decreases hi - lo
  {
    if hi > lo && hi > 0 {
      RangeSize(lo, hi - 1);
    }
  }

  /** The window around row `idx` of a table with `n` rows: rows
      `max(0, idx - W)` through `min(n - 1, idx + W)`. */
  function RowWindow(idx: nat, n: nat, w: nat): (r: set<nat>)
    ensures forall i: nat :: i in r <==> i < n && idx - w <= i <= idx + w
  {
    var start: int := if idx - w > 0 then idx - w else 0;
    var end: int := if n - 1 < idx + w then n - 1 else idx + w;
    Range(start, end + 1)
  }

  /** A window holds at most `2W + 1` rows. */
  lemma RowWindowSize(idx: nat, n: nat, w: nat)
    ensures |RowWindow(idx, n, w)| <= 2 * w + 1
  {
    var start: int := if idx - w > 0 then idx - w else 0;
    var end: int := if n - 1 < idx + w then n - 1 else idx + w;
    RangeSize(start, end + 1);
  }

  /** The row indices kept for the violation times `viol`: the union of the windows
      around the rows they name (`indices_to_keep`). */
  function KeptIndices(index: map<nat, nat>, viol: seq<real>, n: nat, w: nat): (r: set<nat>)
    ensures forall i :: i in r ==> i < n
    ensures (forall v :: 0 <= v < |viol| ==> MatchedKey(viol[v], index).None?) ==> r == {}
  {
    if |viol| == 0 then {}
    else
      var earlier := KeptIndices(index, viol[..|viol| - 1], n, w);
      match MatchedKey(viol[|viol| - 1], index)
      case Some(t) => earlier + RowWindow(index[t], n, w)
      case None => earlier
  }

  /** Row `i` lies within `W` rows of the row some violation time names. */
  ghost predicate Covered(index: map<nat, nat>, viol: seq<real>, w: nat, i: nat) {
    exists v :: 0 <= v < |viol| && MatchedKey(viol[v], index).Some?
      && index[MatchedKey(viol[v], index).value] - w <= i <= index[MatchedKey(viol[v], index).value] + w
  }

  /** The kept indices are exactly the rows of the table within `W` rows of a row that
      some violation time names. */
  lemma {:induction false} KeptIndicesSpec(index: map<nat, nat>, viol: seq<real>, n: nat, w: nat)
    ensures forall i: nat :: i in KeptIndices(index, viol, n, w) <==> i < n && Covered(index, viol, w, i)
    decreases |viol|
  {
    if |viol| > 0 {
      var pre := viol[..|viol| - 1];
      KeptIndicesSpec(index, pre, n, w);
      forall i: nat
        ensures i in KeptIndices(index, viol, n, w) <==> i < n && Covered(index, viol, w, i)
      {
        if Covered(index, pre, w, i) {
          var v :| 0 <= v < |pre| && MatchedKey(pre[v], index).Some?
            && index[MatchedKey(pre[v], index).value] - w <= i <= index[MatchedKey(pre[v], index).value] + w;
          assert pre[v] == viol[v];
        }
        if Covered(index, viol, w, i) {
          var v :| 0 <= v < |viol| && MatchedKey(viol[v], index).Some?
            && index[MatchedKey(viol[v], index).value] - w <= i <= index[MatchedKey(viol[v], index).value] + w;
          if v < |pre| {
            assert pre[v] == viol[v];
            assert Covered(index, pre, w, i);
          }
        }
      }
    }
  }

  /** The distinct row times the violation times name. */
  function MatchedKeys(index: map<nat, nat>, viol: seq<real>): (r: set<nat>)
    ensures forall t :: t in r ==> t in index
  {
    if |viol| == 0 then {}
    else
      var earlier := MatchedKeys(index, viol[..|viol| - 1]);
      match MatchedKey(viol[|viol| - 1], index)
      case Some(t) => earlier + {t}
      case None => earlier
  }

  /** The window of every named row time is already among the kept indices. */
  lemma {:induction false} MatchedWindowKept(index: map<nat, nat>, viol: seq<real>, n: nat, w: nat, t: nat)
    requires t in MatchedKeys(index, viol)
    ensures RowWindow(index[t], n, w) <= KeptIndices(index, viol, n, w)
    decreases |viol|
  {
    var pre := viol[..|viol| - 1];
    if t in MatchedKeys(index, pre) {
      MatchedWindowKept(index, pre, n, w, t);
    }
  }

  /** At most `2W + 1` rows are kept per distinct named row time. */
  lemma {:induction false} KeptIndicesSize(index: map<nat, nat>, viol: seq<real>, n: nat, w: nat)
    ensures |KeptIndices(index, viol, n, w)| <= (2 * w + 1) * |MatchedKeys(index, viol)|
    decreases |viol|
  {
    if |viol| > 0 {
      var pre := viol[..|viol| - 1];
      KeptIndicesSize(index, pre, n, w);
      var earlier := KeptIndices(index, pre, n, w);
      var keys := MatchedKeys(index, pre);
      var m := MatchedKey(viol[|viol| - 1], index);
      if m.Some? {
        var t := m.value;
        var win := RowWindow(index[t], n, w);
        assert KeptIndices(index, viol, n, w) == earlier + win;
        assert MatchedKeys(index, viol) == keys + {t};
        if t in keys {
          MatchedWindowKept(index, pre, n, w, t);
          AbsorbedWindow(earlier, win, keys, t);
        } else {
          RowWindowSize(index[t], n, w);
          GrowBound(earlier, win, keys, t, 2 * w + 1);
        }
      }
    }
  }

  /** A window already kept, for a key already counted, changes neither. */
  lemma AbsorbedWindow(rows: set<nat>, win: set<nat>, keys: set<nat>, t: nat)
    requires win <= rows && t in keys
    ensures rows + win == rows && keys + {t} == keys
  {
  }

  /** Adding one key and at most `m` rows keeps the bound of `m` rows per key. */
  lemma GrowBound(rows: set<nat>, win: set<nat>, keys: set<nat>, t: nat, m: nat)
    requires |rows| <= m * |keys| && |win| <= m && t !in keys
    ensures |rows + win| <= m * |keys + {t}|
  {
    assert |rows + win| <= |rows| + |win|;
    assert |keys + {t}| == |keys| + 1;
    assert m * (|keys| + 1) == m * |keys| + m;
  }

  /** The indices of the rows kept for a non-empty list of violation times, ascending:
      those within `W` rows of a row some time names (`sorted(indices_to_keep)`). */
  function KeptRows(index: map<nat, nat>, viol: seq<real>, n: nat, w: nat): (keep: seq<nat>)
    ensures StrictlyAscending(keep)
    ensures forall i: nat :: i in keep <==> i < n && Covered(index, viol, w, i)
    ensures forall k :: 0 <= k < |keep| ==> keep[k] < n
  {
    var s := KeptIndices(index, viol, n, w);
    KeptIndicesSpec(index, viol, n, w);
    var keep := SetToSorted(s);
    assert forall i: nat :: i in keep <==> i in s;
    assert forall i: nat :: i in s <==> i < n && Covered(index, viol, w, i);
    MembersBelow(keep, n);
    keep
  }

  /** A list whose members are all below `n` has every entry below `n`. */
  lemma MembersBelow(keep: seq<nat>, n: nat)
    requires forall i: nat :: i in keep ==> i < n
    ensures forall k :: 0 <= k < |keep| ==> keep[k] < n
  {
    forall k | 0 <= k < |keep|
      ensures keep[k] < n
    {
      assert keep[k] in keep;
    }
  }

  /** The windowing step on a table: no violation times keep the table whole; otherwise
      the kept rows, in their original order. */
  function Select(t: Table, index: map<nat, nat>, viol: seq<real>, w: nat): (r: Table)
    ensures r.names == t.names
    ensures WellShaped(t) ==> WellShaped(r)
    ensures |viol| == 0 ==> r == t
    ensures |viol| > 0 ==> var keep := KeptRows(index, viol, |t.rows|, w);
      |r.rows| == |keep| && forall k :: 0 <= k < |keep| ==> r.rows[k] == t.rows[keep[k]]
  {
    if |viol| == 0 then t
    else
      var keep := KeptRows(index, viol, |t.rows|, w);
      Table(t.names, seq(|keep|, k requires 0 <= k < |keep| => t.rows[keep[k]]))
  }

  /** Violation times that name no row keep no row at all. */
  lemma UnmatchedKeepNothing(index: map<nat, nat>, viol: seq<real>, n: nat, w: nat)
    requires forall v :: 0 <= v < |viol| ==> MatchedKey(viol[v], index).None?
    ensures KeptRows(index, viol, n, w) == []
  {
    var keep := KeptRows(index, viol, n, w);
    forall i: nat
      ensures !Covered(index, viol, w, i)
    {
    }
    assert forall i: nat :: i !in keep;
  }

  /** The row a violation time names is itself kept. */
  lemma MatchedRowKept(index: map<nat, nat>, viol: seq<real>, n: nat, w: nat, v: nat)
    requires v < |viol| && MatchedKey(viol[v], index).Some?
    requires index[MatchedKey(viol[v], index).value] < n
    ensures index[MatchedKey(viol[v], index).value] in KeptRows(index, viol, n, w)
  {
    var i := index[MatchedKey(viol[v], index).value];
    assert Covered(index, viol, w, i);
  }

  /** At most `2W + 1` rows are kept per distinct row time the violation times name. */
  lemma KeptRowsSize(index: map<nat, nat>, viol: seq<real>, n: nat, w: nat)
    ensures |KeptRows(index, viol, n, w)| <= (2 * w + 1) * |MatchedKeys(index, viol)|
  {
    KeptIndicesSize(index, viol, n, w);
  }

  /** Selection keeps rows of the table only, in the table's order. */
  lemma SelectKeepsOrder(t: Table, index: map<nat, nat>, viol: seq<real>, w: nat)
    ensures var r := Select(t, index, viol, w);
      && (forall i :: 0 <= i < |r.rows| ==> r.rows[i] in t.rows)
      && (StrictlyAscending(Times(t)) ==> StrictlyAscending(Times(r)))
  {
    var r := Select(t, index, viol, w);
    if |viol| > 0 {
      var keep := KeptRows(index, viol, |t.rows|, w);
      forall i | 0 <= i < |r.rows|
        ensures r.rows[i] in t.rows
      {
        assert r.rows[i] == t.rows[keep[i]];
      }
      if StrictlyAscending(Times(t)) {
        forall a, b | 0 <= a < b < |r.rows|
          ensures r.rows[a].time < r.rows[b].time
        {
          assert keep[a] < keep[b];
          assert Times(t)[keep[a]] < Times(t)[keep[b]];
        }
      }
    }
  }

  /** In a table whose row times `index` locates, a row time some violation time names
      survives selection. */
  lemma NamedRowSelected(t: Table, index: map<nat, nat>, viol: seq<real>, w: nat, v: nat)
    requires v < |viol| && MatchedKey(viol[v], index).Some?
    requires forall i :: 0 <= i < |t.rows| ==> t.rows[i].time in index && index[t.rows[i].time] == i
    requires forall x :: x in index ==> x in Times(t)
    ensures MatchedKey(viol[v], index).value in Times(Select(t, index, viol, w))
  {
    var x := MatchedKey(viol[v], index).value;
    var j :| 0 <= j < |t.rows| && Times(t)[j] == x;
    assert t.rows[j].time == x;
    var keep := KeptRows(index, viol, |t.rows|, w);
    MatchedRowKept(index, viol, |t.rows|, w, v);
    var k :| 0 <= k < |keep| && keep[k] == j;
    assert Times(Select(t, index, viol, w))[k] == x;
  }
}
