/** The column-default block of the dashboard (dashboard/app.py:132-145): after
    the data is loaded, every expected telemetry column exists, every row has a
    GPU id, a health class is taken over from the predicted class, and a life
    score is derived from the thermal score and the compute load. */
module Defaults {
  import opened Table

  /** The seven telemetry columns the dashboard relies on. */
  const ExpectedColumns: seq<string> :=
    ["overclock_proxy", "usage_hours", "avg_power_watts", "peak_power_watts",
     "avg_sm_pct", "avg_mem_pct", "thermal_score"]

  /** `Series.clip(lo, hi)` on one value. */
  function Clip(x: real, lo: real, hi: real): (r: real)
    requires lo <= hi
    ensures lo <= r <= hi
    ensures lo <= x <= hi ==> r == x
    ensures x < lo ==> r == lo
    ensures hi < x ==> r == hi
  {
    if x < lo then lo else if hi < x then hi else x
  }

  /** The derived life score of one row: 100 - (thermal + sm / 2), clipped to [0, 100]. */
  function LifeScore(thermal: real, sm: real): (s: real)
    ensures 0.0 <= s <= 100.0
  {
    Clip(100.0 - (thermal + sm / 2.0), 0.0, 100.0)
  }

  /** A hotter or busier GPU never gets a higher derived life score. */
  lemma LifeScoreAntitone(thermal: real, sm: real, thermal': real, sm': real)
    requires thermal <= thermal' && sm <= sm'
    ensures LifeScore(thermal', sm') <= LifeScore(thermal, sm)
  {
  }

  /** Inside the clipping range the derived score is exactly the formula. */
  lemma LifeScoreUnclipped(thermal: real, sm: real)
    requires 0.0 <= thermal + sm / 2.0 <= 100.0
    ensures LifeScore(thermal, sm) == 100.0 - (thermal + sm / 2.0)
  {
  }

  /** A derived score is high-risk (below 30) exactly when thermal + sm / 2 exceeds 70. */
  lemma DerivedHighRisk(thermal: real, sm: real)
    ensures LifeScore(thermal, sm) < 30.0 <==> thermal + sm / 2.0 > 70.0
  {
  }

  /** `df.index + 1` on the default index: 1, 2, ..., n. */
  function RowNumbers(n: nat): (col: seq<Cell>)
    ensures |col| == n
    ensures forall i | 0 <= i < n :: col[i] == Num((i + 1) as real)
  {
    seq(n, i => Num((i + 1) as real))
  }

  /** The derived `life_score` column of a frame whose telemetry columns exist. */
  function LifeScores(t: Frame): (col: seq<Cell>)
    requires WellFormed(t) && "thermal_score" in t.columns && "avg_sm_pct" in t.columns
    requires NumericColumn(t, "thermal_score") && NumericColumn(t, "avg_sm_pct")
    ensures |col| == |t.rows|
    ensures forall i | 0 <= i < |t.rows| ::
      col[i] == Num(LifeScore(Metric(t.rows[i], "thermal_score"), Metric(t.rows[i], "avg_sm_pct")))
  {
    seq(|t.rows|, i requires 0 <= i < |t.rows| && NumericOrAbsent(t.rows[i], "thermal_score")
                             && NumericOrAbsent(t.rows[i], "avg_sm_pct") =>
      Num(LifeScore(Metric(t.rows[i], "thermal_score"), Metric(t.rows[i], "avg_sm_pct"))))
  }

  /** The columns the defaulting block leaves in a frame with columns `cs`. */
  function DefaultedColumns(cs: set<string>): (r: set<string>)
  {
    cs + (set c | c in ExpectedColumns) + {"GPU_ID", "life_score"}
       + (if "Predicted_Class" in cs then {"health_class"} else {})
  }

  /** Lines 132-136: every missing telemetry column is added as 0. */
  method FillExpected(t: Frame) returns (u: Frame)
    requires WellFormed(t)
    ensures Filled(t, u)
  {
    u := t;
    for k := 0 to |ExpectedColumns|
      invariant WellFormed(u) && |u.rows| == |t.rows|
      invariant u.columns == t.columns + (set c | c in ExpectedColumns[..k])
      invariant forall i, c | 0 <= i < |t.rows| && c in t.columns :: u.rows[i][c] == t.rows[i][c]
      invariant forall i, c | 0 <= i < |t.rows| && c in u.columns && c !in t.columns ::
        u.rows[i][c] == Num(0.0)
    {
      var c := ExpectedColumns[k];
      if c !in u.columns {
        u := Assign(u, c, Constant(|u.rows|, Num(0.0)));
      }
      assert ExpectedColumns[..k + 1] == ExpectedColumns[..k] + [c];
    }
    assert ExpectedColumns[..|ExpectedColumns|] == ExpectedColumns;
  }

  /** `u` has the rows of `t`, and every column of `t` with the same cells. */
  ghost predicate Keeps(t: Frame, u: Frame) {
    && |u.rows| == |t.rows|
    && t.columns <= u.columns
    && forall i, c | 0 <= i < |t.rows| && c in t.rows[i] :: c in u.rows[i] && u.rows[i][c] == t.rows[i][c]
  }

  lemma KeepsTransitive(s: Frame, t: Frame, u: Frame)
    requires Keeps(s, t) && Keeps(t, u)
    ensures Keeps(s, u)
  {
  }

  /** Lines 138-139: a frame without GPU ids numbers its rows from 1. */
  function DefaultGpuId(t: Frame): (u: Frame)
    requires WellFormed(t)
    ensures WellFormed(u) && Keeps(t, u)
    ensures u.columns == t.columns + {"GPU_ID"}
    ensures "GPU_ID" !in t.columns ==>
      forall i | 0 <= i < |t.rows| :: u.rows[i]["GPU_ID"] == Num((i + 1) as real)
  {
    if "GPU_ID" in t.columns then t else Assign(t, "GPU_ID", RowNumbers(|t.rows|))
  }

  /** Lines 141-142: a missing health class is copied from the predicted class,
      when there is one; otherwise the frame is unchanged. */
  function DefaultHealthClass(t: Frame): (u: Frame)
    requires WellFormed(t)
    ensures WellFormed(u) && Keeps(t, u)
    ensures u.columns == t.columns + (if "Predicted_Class" in t.columns then {"health_class"} else {})
    ensures "health_class" !in t.columns && "Predicted_Class" in t.columns ==>
      forall i | 0 <= i < |t.rows| :: u.rows[i]["health_class"] == t.rows[i]["Predicted_Class"]
    ensures "health_class" in t.columns || "Predicted_Class" !in t.columns ==> u == t
  {
    if "health_class" !in t.columns && "Predicted_Class" in t.columns
    then Assign(t, "health_class", ColumnOf(t, "Predicted_Class"))
    else t
  }

  /** Lines 144-145: a missing life score is derived from the thermal score
      and the compute load; an existing one is left as it is. */
  function DefaultLifeScore(t: Frame): (u: Frame)
    requires WellFormed(t) && "thermal_score" in t.columns && "avg_sm_pct" in t.columns
    requires "life_score" !in t.columns ==>
      NumericColumn(t, "thermal_score") && NumericColumn(t, "avg_sm_pct")
    ensures WellFormed(u) && Keeps(t, u)
    ensures u.columns == t.columns + {"life_score"}
    ensures "life_score" !in t.columns ==>
      forall i | 0 <= i < |t.rows| ::
        u.rows[i]["life_score"]
          == Num(LifeScore(Metric(t.rows[i], "thermal_score"), Metric(t.rows[i], "avg_sm_pct")))
  {
    if "life_score" in t.columns then t else Assign(t, "life_score", LifeScores(t))
  }

  /** What lines 132-136 leave behind: `u` is `t` with each missing
      telemetry column added as 0. */
  ghost predicate Filled(t: Frame, u: Frame) {
    && WellFormed(u) && Keeps(t, u)
    && u.columns == t.columns + (set c | c in ExpectedColumns)
    && forall i, c | 0 <= i < |t.rows| && c in u.columns && c !in t.columns :: u.rows[i][c] == Num(0.0)
  }

  /** Lines 138-145 applied to a frame whose telemetry columns exist. */
  function Complete(t: Frame): (u: Frame)
    requires WellFormed(t) && (set c | c in ExpectedColumns) <= t.columns
    requires "life_score" !in t.columns ==>
      NumericColumn(t, "thermal_score") && NumericColumn(t, "avg_sm_pct")
  {
    DefaultLifeScore(DefaultHealthClass(DefaultGpuId(t)))
  }

  lemma CompleteKeeps(t: Frame)
    requires WellFormed(t) && (set c | c in ExpectedColumns) <= t.columns
    requires "life_score" !in t.columns ==>
      NumericColumn(t, "thermal_score") && NumericColumn(t, "avg_sm_pct")
    ensures WellFormed(Complete(t)) && Keeps(t, Complete(t))
    ensures Complete(t).columns == t.columns + {"GPU_ID", "life_score"}
      + (if "Predicted_Class" in t.columns then {"health_class"} else {})
  {
    var numbered := DefaultGpuId(t);
    var classed := DefaultHealthClass(numbered);
    KeepsTransitive(t, numbered, classed);
    KeepsTransitive(t, classed, Complete(t));
  }

  lemma CompleteDerived(t: Frame)
    requires WellFormed(t) && (set c | c in ExpectedColumns) <= t.columns
    requires "life_score" !in t.columns ==>
      NumericColumn(t, "thermal_score") && NumericColumn(t, "avg_sm_pct")
    ensures WellFormed(Complete(t)) && |Complete(t).rows| == |t.rows|
    ensures "GPU_ID" in Complete(t).columns && "life_score" in Complete(t).columns
    ensures "GPU_ID" !in t.columns ==>
      forall i | 0 <= i < |t.rows| :: Complete(t).rows[i]["GPU_ID"] == Num((i + 1) as real)
    ensures "health_class" !in t.columns && "Predicted_Class" in t.columns ==>
      "health_class" in Complete(t).columns &&
      forall i | 0 <= i < |t.rows| :: Complete(t).rows[i]["health_class"] == t.rows[i]["Predicted_Class"]
    ensures "life_score" !in t.columns ==>
      forall i | 0 <= i < |t.rows| ::
        Complete(t).rows[i]["life_score"]
          == Num(LifeScore(Metric(t.rows[i], "thermal_score"), Metric(t.rows[i], "avg_sm_pct")))
  {
    var numbered := DefaultGpuId(t);
    var classed := DefaultHealthClass(numbered);
    KeepsTransitive(numbered, classed, Complete(t));
  }

  /** The columns the later steps look at are untouched by lines 132-136,
      apart from the telemetry columns they read, which are numbers. */
  lemma FilledFacts(t: Frame, u: Frame)
    requires WellFormed(t) && Filled(t, u)
    requires "life_score" !in t.columns ==>
      NumericColumn(t, "thermal_score") && NumericColumn(t, "avg_sm_pct")
    ensures (set c | c in ExpectedColumns) <= u.columns
    ensures forall c | c !in ExpectedColumns :: c in u.columns <==> c in t.columns
    ensures "life_score" !in u.columns ==>
      NumericColumn(u, "thermal_score") && NumericColumn(u, "avg_sm_pct")
    ensures "life_score" !in u.columns ==>
      forall i | 0 <= i < |t.rows| ::
        Metric(u.rows[i], "thermal_score") == Metric(t.rows[i], "thermal_score")
        && Metric(u.rows[i], "avg_sm_pct") == Metric(t.rows[i], "avg_sm_pct")
    ensures forall i, c | 0 <= i < |t.rows| && c in ExpectedColumns && c !in t.columns ::
      u.rows[i][c] == Num(0.0)
  {
  }

  /** Lines 132-145: add each missing telemetry column as 0, number the rows
      when there is no GPU id, copy the predicted class into a missing health
      class, and derive a missing life score.  The life score formula reads
      the thermal score and the compute load, so those must be numbers when
      it is derived. */
  method ApplyDefaults(t: Frame) returns (u: Frame)
    requires WellFormed(t)
    requires "life_score" !in t.columns ==>
      NumericColumn(t, "thermal_score") && NumericColumn(t, "avg_sm_pct")
    ensures WellFormed(u) && |u.rows| == |t.rows|
    ensures u.columns == DefaultedColumns(t.columns)
    ensures forall i, c | 0 <= i < |t.rows| && c in t.columns :: u.rows[i][c] == t.rows[i][c]
    ensures forall i, c | 0 <= i < |t.rows| && c in ExpectedColumns && c !in t.columns ::
      u.rows[i][c] == Num(0.0)
    ensures "GPU_ID" !in t.columns ==>
      forall i | 0 <= i < |t.rows| :: u.rows[i]["GPU_ID"] == Num((i + 1) as real)
    ensures "health_class" !in t.columns && "Predicted_Class" in t.columns ==>
      forall i | 0 <= i < |t.rows| :: u.rows[i]["health_class"] == t.rows[i]["Predicted_Class"]
    ensures "life_score" !in t.columns ==>
      forall i | 0 <= i < |t.rows| ::
        u.rows[i]["life_score"]
          == Num(LifeScore(Metric(t.rows[i], "thermal_score"), Metric(t.rows[i], "avg_sm_pct")))
  {
    assert "GPU_ID" !in ExpectedColumns && "life_score" !in ExpectedColumns;
    assert "health_class" !in ExpectedColumns && "Predicted_Class" !in ExpectedColumns;
    var filled := FillExpected(t);
    FilledFacts(t, filled);
    u := Complete(filled);
    CompleteKeeps(filled);
    CompleteDerived(filled);
    KeepsTransitive(t, filled, u);
  }
}
