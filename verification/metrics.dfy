/** Table-wide counts and the GPU filter of the dashboard (dashboard/app.py):
    the high-risk count, the anomaly labels and their counts, the list of
    anomalous GPU ids in the report, and the GPU filter panel. */
module Metrics {
  import opened Table

  // ---------------------------------------------------------------------------
  // High-risk units (lines 161 and 188)
  // ---------------------------------------------------------------------------

  /** Every row carries a numeric life score (true after the defaulting block). */
  ghost predicate Scored(rows: seq<Row>) {
    forall i | 0 <= i < |rows| :: "life_score" in rows[i] && rows[i]["life_score"].Num?
  }

  /** The per-row test of `df[df["life_score"] < 30]`. */
  predicate HighRisk(row: Row)
    requires "life_score" in row && row["life_score"].Num?
  {
    row["life_score"].x < 30.0
  }

  /** `int(df[df["life_score"] < 30].shape[0])`. */
  function HighRiskCount(rows: seq<Row>): (n: nat)
    requires Scored(rows)
    ensures n <= |rows|
    ensures n == 0 <==> forall i | 0 <= i < |rows| :: !HighRisk(rows[i])
    ensures n == |rows| <==> forall i | 0 <= i < |rows| :: HighRisk(rows[i])
  {
    if rows == [] then 0
    else (if HighRisk(rows[0]) then 1 else 0) + HighRiskCount(rows[1..])
  }

  /** Counting splits over a split of the rows. */
  lemma {:induction false} HighRiskCountAppend(a: seq<Row>, b: seq<Row>)
    requires Scored(a) && Scored(b)
    ensures Scored(a + b)
    ensures HighRiskCount(a + b) == HighRiskCount(a) + HighRiskCount(b)
  {
    if a != [] {
      assert (a + b)[1..] == a[1..] + b;
      HighRiskCountAppend(a[1..], b);
    } else {
      assert a + b == b;
    }
  }

  // ---------------------------------------------------------------------------
  // Anomaly labels and counts (lines 204, 386 and 390-392)
  // ---------------------------------------------------------------------------

  /** `"Anomaly" if x == -1 else "Normal"` on the detector's output. */
  function AnomalyLabel(flag: int): (tag: string)
    ensures tag == "Anomaly" <==> flag == -1
    ensures tag == "Normal" <==> flag != -1
  {
    if flag == -1 then "Anomaly" else "Normal"
  }

  /** The `Anomaly_Label` column. */
  function Labels(flags: seq<int>): (labels: seq<string>)
    ensures |labels| == |flags|
    ensures forall i | 0 <= i < |flags| :: labels[i] == AnomalyLabel(flags[i])
  {
    seq(|flags|, i requires 0 <= i < |flags| => AnomalyLabel(flags[i]))
  }

  /** `(labels == v).sum()`: the number of times `v` occurs among the labels. */
  function CountOf(labels: seq<string>, v: string): (n: nat)
    ensures n == multiset(labels)[v]
    ensures n == 0 <==> v !in labels
  {
    if labels == [] then 0
    else
      assert labels == [labels[0]] + labels[1..];
      (if labels[0] == v then 1 else 0) + CountOf(labels[1..], v)
  }

  /** When every label is one of two distinct values, their counts add up
      to the number of labels. */
  lemma {:induction false} TwoLabelsPartition(labels: seq<string>, a: string, b: string)
    requires a != b
    requires forall i | 0 <= i < |labels| :: labels[i] == a || labels[i] == b
    ensures CountOf(labels, a) + CountOf(labels, b) == |labels|
  {
    if labels != [] {
      TwoLabelsPartition(labels[1..], a, b);
    }
  }

  /** Detected anomalies plus normal GPUs is the number of rows shown. */
  lemma AnomalyNormalPartition(flags: seq<int>)
    ensures CountOf(Labels(flags), "Anomaly") + CountOf(Labels(flags), "Normal") == |flags|
  {
    TwoLabelsPartition(Labels(flags), "Anomaly", "Normal");
  }

  /** Line 205: the GPU ids of the rows labelled "Anomaly", in row order. */
  function AnomalyIds(ids: seq<Cell>, flags: seq<int>): (r: seq<Cell>)
    requires |ids| == |flags|
    ensures |r| == multiset(flags)[-1]
    ensures forall x :: x in r ==> x in ids
    ensures forall i | 0 <= i < |ids| && flags[i] == -1 :: ids[i] in r
  {
    if ids == [] then []
    else
      assert flags == [flags[0]] + flags[1..];
      (if flags[0] == -1 then [ids[0]] else []) + AnomalyIds(ids[1..], flags[1..])
  }

  /** How often a value occurs: the first element and then the rest. */
  lemma OccurrencesCons<T>(xs: seq<T>, v: T)
    requires xs != []
    ensures multiset(xs)[v] == (if xs[0] == v then 1 else 0) + multiset(xs[1..])[v]
  {
    assert xs == [xs[0]] + xs[1..];
  }

  /** For one detector output, the "Anomaly" labels counted as at line 390 are
      its -1 outputs, and so as many as `AnomalyIds` lists for that output. */
  lemma {:induction false} AnomalyLabelsCount(flags: seq<int>)
    ensures CountOf(Labels(flags), "Anomaly") == multiset(flags)[-1]
  {
    if flags != [] {
      var labels := Labels(flags);
      AnomalyLabelsCount(flags[1..]);
      assert labels[1..] == Labels(flags[1..]);
      assert labels[0] == "Anomaly" <==> flags[0] == -1;
      OccurrencesCons(flags, -1);
    }
  }

  /** Some row carrying `x` is flagged -1. */
  ghost predicate FlaggedId(ids: seq<Cell>, flags: seq<int>, x: Cell)
    requires |ids| == |flags|
  {
    exists i | 0 <= i < |ids| :: flags[i] == -1 && ids[i] == x
  }

  /** Being flagged in a table is being flagged in its first row or in the rest. */
  lemma FlaggedIdCons(ids: seq<Cell>, flags: seq<int>, x: Cell)
    requires |ids| == |flags| && ids != []
    ensures FlaggedId(ids, flags, x) <==>
      (flags[0] == -1 && ids[0] == x) || FlaggedId(ids[1..], flags[1..], x)
  {
    if FlaggedId(ids[1..], flags[1..], x) {
      var i :| 0 <= i < |ids| - 1 && flags[1..][i] == -1 && ids[1..][i] == x;
      assert flags[i + 1] == -1 && ids[i + 1] == x;
    }
    if FlaggedId(ids, flags, x) && !(flags[0] == -1 && ids[0] == x) {
      var i :| 0 <= i < |ids| && flags[i] == -1 && ids[i] == x;
      assert flags[1..][i - 1] == -1 && ids[1..][i - 1] == x;
    }
  }

  /** An id is listed exactly when some row carrying it is flagged -1: an id
      shared with a normal row is listed only because of a flagged one. */
  lemma {:induction false} AnomalyIdsMembers(ids: seq<Cell>, flags: seq<int>, x: Cell)
    requires |ids| == |flags|
    ensures x in AnomalyIds(ids, flags) <==> FlaggedId(ids, flags, x)
  {
    if ids != [] {
      var head: seq<Cell> := if flags[0] == -1 then [ids[0]] else [];
      var rest := AnomalyIds(ids[1..], flags[1..]);
      assert AnomalyIds(ids, flags) == head + rest;
      assert x in head + rest <==> x in head || x in rest;
      AnomalyIdsMembers(ids[1..], flags[1..], x);
      FlaggedIdCons(ids, flags, x);
    }
  }

  /** The listing distributes over a split of the rows, so together with the
      one-row case it fixes the list: every flagged row contributes its id,
      once, in row order. */
  lemma {:induction false} AnomalyIdsAppend(a: seq<Cell>, fa: seq<int>, b: seq<Cell>, fb: seq<int>)
    requires |a| == |fa| && |b| == |fb|
    ensures AnomalyIds(a + b, fa + fb) == AnomalyIds(a, fa) + AnomalyIds(b, fb)
  {
    if a != [] {
      assert (a + b)[1..] == a[1..] + b;
      assert (fa + fb)[1..] == fa[1..] + fb;
      AnomalyIdsAppend(a[1..], fa[1..], b, fb);
    } else {
      assert a + b == b && fa + fb == fb;
    }
  }

  /** One row lists its id exactly when it is flagged -1. */
  lemma AnomalyIdsSingle(id: Cell, flag: int)
    ensures AnomalyIds([id], [flag]) == if flag == -1 then [id] else []
  {
  }

  // ---------------------------------------------------------------------------
  // GPU filter panel (line 359)
  // ---------------------------------------------------------------------------

  /** `df["GPU_ID"].isin(selection)` on one row. */
  predicate Picked(row: Row, selection: seq<Cell>) {
    "GPU_ID" in row && row["GPU_ID"] in selection
  }

  /** The rows whose GPU id is selected, in their original order. */
  function PickRows(rows: seq<Row>, selection: seq<Cell>): (r: seq<Row>)
    ensures |r| <= |rows|
    ensures forall x | x in r :: x in rows && Picked(x, selection)
  {
    if rows == [] then []
    else
      (if Picked(rows[0], selection) then [rows[0]] else []) + PickRows(rows[1..], selection)
  }

  /** Line 359: `df[df["GPU_ID"].isin(gpu_filter)] if gpu_filter else df`. */
  function GpuFilter(t: Frame, selection: seq<Cell>): (u: Frame)
    ensures u.columns == t.columns
    ensures selection == [] ==> u == t
    ensures selection != [] ==> u.rows == PickRows(t.rows, selection)
  {
    if selection == [] then t else Frame(t.columns, PickRows(t.rows, selection))
  }

  /** The filter keeps every selected row as often as it occurs, and no other row. */
  lemma {:induction false} PickRowsCounts(rows: seq<Row>, selection: seq<Cell>)
    ensures forall x ::
      multiset(PickRows(rows, selection))[x] == if Picked(x, selection) then multiset(rows)[x] else 0
  {
    if rows != [] {
      PickRowsCounts(rows[1..], selection);
      assert rows == [rows[0]] + rows[1..];
    }
  }

  /** Filtering keeps the row order: it distributes over concatenation. */
  lemma {:induction false} PickRowsAppend(a: seq<Row>, b: seq<Row>, selection: seq<Cell>)
    ensures PickRows(a + b, selection) == PickRows(a, selection) + PickRows(b, selection)
  {
    if a != [] {
      var head := if Picked(a[0], selection) then [a[0]] else [];
      calc {
        PickRows(a + b, selection);
        { assert (a + b)[0] == a[0] && (a + b)[1..] == a[1..] + b; }
        head + PickRows(a[1..] + b, selection);
        { PickRowsAppend(a[1..], b, selection); }
        head + (PickRows(a[1..], selection) + PickRows(b, selection));
        (head + PickRows(a[1..], selection)) + PickRows(b, selection);
        PickRows(a, selection) + PickRows(b, selection);
      }
    } else {
      assert a + b == b;
    }
  }

  /** Filtering twice with the same selection is filtering once. */
  lemma {:induction false} PickRowsIdempotent(rows: seq<Row>, selection: seq<Cell>)
    ensures PickRows(PickRows(rows, selection), selection) == PickRows(rows, selection)
  {
    if rows != [] {
      var head := if Picked(rows[0], selection) then [rows[0]] else [];
      PickRowsIdempotent(rows[1..], selection);
      PickRowsAppend(head, PickRows(rows[1..], selection), selection);
      if head != [] {
        assert PickRows(head, selection) == head by {
          assert head[1..] == [];
        }
      }
    }
  }
}
