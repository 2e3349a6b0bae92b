# Processor lifecycle estimator: upload page and dashboard rules in Dafny

This project models the two parts of the processor lifecycle estimator
that carry decisions of their own, and proves properties of the model.

- **The upload page** (`src/pages/Upload.tsx`). The page keeps three pieces of state:
  - the selected CSV file;
  - whether a simulated upload is in progress;
  - whether processing has completed.

  Four handlers change that state: dropping a file, picking a file, pressing "Analyze and Classify", and "Upload Another File". A timer callback finishes the simulated processing. `upload.dfy` models the page as the class `UploadPage.Page`. Each handler is a method with `modifies this`, and its postconditions give the whole new state. Two extra fields make the effects of the handlers visible to the proofs:
  - `notices` lists the toasts raised so far;
  - `timers` counts the completion callbacks that are scheduled and have not yet run.

  `Valid()` is the invariant of the states the rendered page can reach. `Offers(e)` says which handlers the view on screen wires up. `Dispatch` proves that every offered event keeps the page valid, so at most one simulated upload is in flight.
- **The dashboard's row rules** (`dashboard/app.py`). A DataFrame is modelled as a `Table.Frame`: a set of column names plus a sequence of rows. Each row maps a column name to a cell, and a cell is an exact `real` or a text label. The modules are:
  - `defaults.dfy`: the block that fills in default columns;
  - `advice.dfy`: the maintenance, recycling and workload classifiers;
  - `metrics.dfy`: the high-risk and anomaly counts, and the GPU filter;
  - `report.dfy`: the line cursor of the PDF report, with its page breaks.

The code of `Upload.tsx` simulates processing with a 2000 ms timer. It makes no network call and writes nothing to storage. A networked variant would post the file to a prediction endpoint and keep the response, but the model follows the code as written: the timer callback is the `Finish` step.

## Model

| member | source | states |
|---|---|---|
| `UploadPage.Page.constructor` | src/pages/Upload.tsx:11-13 | The page starts with no file, nothing in progress and nothing completed, in the idle phase. |
| `UploadPage.Page.AnalyzeEnabled` | src/pages/Upload.tsx:111 | The analyze button is never enabled on the empty form or while processing, and it is always enabled once a file is chosen. |
| `UploadPage.Page.HandleDrop` | src/pages/Upload.tsx:20-32 | A drop is accepted exactly when there is a first file and its name ends with ".csv", and that file becomes the selected one. A rejected drop raises "Invalid file type" and leaves the file, the upload flag and the completion flag unchanged. The invariant is kept either way. |
| `UploadPage.Page.HandleFileChange` | src/pages/Upload.tsx:34-38 | A present, non-empty file list selects its first file without any check of the name. A missing or empty list changes nothing. No notice is raised. |
| `UploadPage.Page.HandleAnalyze` | src/pages/Upload.tsx:40-60 | With no file, the handler raises "No file selected" and changes no state. With a file, it sets the upload flag and schedules one completion. The selected file is never changed. When the page offers the button, the handler leads to the processing phase with the invariant kept. |
| `UploadPage.Page.Finish` | src/pages/Upload.tsx:52-59 | The timer callback clears the upload flag, sets the completion flag and raises the success notice. From a valid state this is the complete phase. |
| `UploadPage.Page.Reset` | src/pages/Upload.tsx:147-150 | "Upload Another File" clears the file and the completion flag and leaves the upload flag alone. From the completed view, this returns the page to the idle upload form. |
| `UploadPage.Page.Dispatch` | src/pages/Upload.tsx:80-157 | Every event that the rendered view offers keeps `Valid()`. In particular, the analyze button is enabled only with a file and nothing in progress, so at most one simulated upload is in flight. |
| `UploadPage.AnalyzeThenFinish` | src/pages/Upload.tsx:34-59 | Picking a file, analysing it and letting the timer fire ends complete and not processing, with the file kept and one success notice. |
| `UploadPage.EndsWithCsv` | src/pages/Upload.tsx:23 | The suffix test holds exactly when the name is some stem followed by ".csv". |
| `Defaults.FillExpected` | dashboard/app.py:132-136 | After the loop, all seven telemetry columns exist. Columns already present keep every cell, and each added column is 0 in every row. |
| `Defaults.DefaultGpuId` | dashboard/app.py:138-139 | A frame without `GPU_ID` numbers its rows 1..n in row order. Every other column is kept. |
| `Defaults.DefaultHealthClass` | dashboard/app.py:141-142 | `health_class` is copied from `Predicted_Class` only when it is absent and `Predicted_Class` is present. Otherwise the frame is unchanged. |
| `Defaults.DefaultLifeScore` | dashboard/app.py:144-145 | A missing `life_score` becomes the clipped formula of each row's thermal score and compute load. An existing column is left as it is. |
| `Defaults.ApplyDefaults` | dashboard/app.py:132-145 | The whole defaulting block. The result has exactly the original columns plus the seven telemetry columns, `GPU_ID`, `life_score`, and `health_class` when a predicted class exists. Existing cells are kept. Missing telemetry is 0, missing ids run from 1 in row order, and the health class is copied as above. A derived life score equals the formula. |
| `Defaults.LifeScore` | dashboard/app.py:145 | A derived life score always lies in [0, 100]. |
| `Defaults.LifeScoreUnclipped` | dashboard/app.py:145 | Inside the clipping range, the derived score is exactly 100 - (thermal + sm / 2). |
| `Defaults.LifeScoreAntitone` | dashboard/app.py:145 | A hotter or busier GPU never gets a higher derived life score. |
| `Defaults.DerivedHighRisk` | dashboard/app.py:161 | A derived life score is below 30 exactly when thermal + sm / 2 exceeds 70. |
| `Advice.FiredRules` | dashboard/app.py:324-327 | The collected rules are exactly those whose thresholds fire (thermal > 18, power > 180, sm > 70 with overclock 1), with missing fields read as 0. They come in checking order, each at most once. |
| `Advice.Join` | dashboard/app.py:328 | Python's `sep.join`. Part k stands at the total length of the parts before it plus k separators, a separator follows every part but the last, and the length is the parts' total plus n - 1 separators. So nothing else is in the text. |
| `Advice.Render` | dashboard/app.py:328 | The rendered advice is "None" exactly when the list of rules is empty. |
| `Advice.GetRecommendations` | dashboard/app.py:323-328 | The checking decoder accepts the advice text with exactly the rules collected for the row. By `Advice.DecodeSound`, the text is therefore exactly their messages joined by ", ", or "None". |
| `Advice.RecommendationsLayout` | dashboard/app.py:323-328 | The advice text spelled out: each fired message at its offset, ", " after all but the last, and nothing else. With no rule firing, the text is "None". |
| `Advice.RecommendationsFaithful` | dashboard/app.py:323-328 | The advice is "None" exactly when no rule fires. Otherwise the text reads back as exactly the rules that fire, in checking order. |
| `Advice.RenderRoundTrip` | dashboard/app.py:328 | The checking decoder reads every rendered text back as the same list of rules. |
| `Advice.DecodeSound` | dashboard/app.py:328 | The decoder accepts a text only if the text is the rendering of the rules it returns. Together with the round trip, a text renders a rule list exactly when it decodes to that list. |
| `Advice.DecodeJoinedRoundTrip` | dashboard/app.py:328 | For any message table whose messages are non-empty and start with their rule's letter, the messages of a non-empty rule list joined by ", " decode to that list. |
| `Advice.DecodeJoinedSound` | dashboard/app.py:328 | For any such table, a text the decoder accepts is the non-empty list's messages joined by ", ". The decoder checks every message in full and every separator. |
| `Advice.RecommendationsDetermineRules` | dashboard/app.py:323-328 | Two rows get the same advice text if and only if the same rules fire for both. |
| `Advice.InOrderUnique` | dashboard/app.py:324-327 | Two lists in checking order with the same members are equal, so the order of the advice is fixed. |
| `Advice.RecyclingCategory` | dashboard/app.py:330-333 | The category is a total three-way partition of the life score: above 70 continues, (40, 70] is partial recycling, and 40 or below is recycle/retire. |
| `Advice.RecyclingMonotone` | dashboard/app.py:330-333 | A higher life score never gives a worse category. |
| `Advice.WorkloadRecommendation` | dashboard/app.py:459-462 | The result is compute-intensive exactly when sm > mem, memory-intensive exactly when mem > sm, and balanced exactly when they are equal. |
| `Advice.WorkloadSwap` | dashboard/app.py:459-462 | Swapping the compute and memory loads swaps the compute and memory profiles and keeps the balanced one. |
| `Metrics.HighRiskCount` | dashboard/app.py:161 | The high-risk count is at most the number of rows. It is 0 exactly when no row scores below 30, and it equals the row count exactly when every row does. |
| `Metrics.HighRiskCountAppend` | dashboard/app.py:188 | The count over two parts of a table is the sum of the counts over the parts. |
| `Metrics.AnomalyLabel` | dashboard/app.py:386 | The label is "Anomaly" exactly for -1 and "Normal" for every other detector output. |
| `Metrics.Labels` | dashboard/app.py:386 | The label column has one label per detector output, each the label of that output. |
| `Metrics.CountOf` | dashboard/app.py:390-392 | The count of a label is its number of occurrences (its multiplicity), and it is 0 exactly when the label does not occur. |
| `Metrics.TwoLabelsPartition` | dashboard/app.py:390-392 | When every label is one of two distinct values, the two counts add up to the number of labels. |
| `Metrics.AnomalyNormalPartition` | dashboard/app.py:390-392 | Detected anomalies plus normal GPUs equals the number of rows shown. |
| `Metrics.AnomalyIds` | dashboard/app.py:204-205 | One id is listed per detector output of -1. Each listed id is an id of the table, and the id of every row flagged -1 is among them. |
| `Metrics.AnomalyLabelsCount` | dashboard/app.py:390 | For one detector output, the "Anomaly" count equals the number of -1 outputs, and so equals the length of `AnomalyIds(ids, flags)`. |
| `Metrics.AnomalyIdsMembers` | dashboard/app.py:205 | An id is listed exactly when some row carrying it is flagged -1, so an id shared only with normal rows is never listed. |
| `Metrics.AnomalyIdsAppend` | dashboard/app.py:205 | The list over two parts of a table is the list over the first part followed by the list over the second, so the ids come in row order. |
| `Metrics.AnomalyIdsSingle` | dashboard/app.py:204-205 | One row contributes its id exactly when it is flagged -1. With the append lemma this fixes the list entry by entry, repeats included. |
| `Metrics.PickRows` | dashboard/app.py:359 | The filter keeps only rows whose `GPU_ID` is selected, and no more rows than it was given. |
| `Metrics.GpuFilter` | dashboard/app.py:359 | An empty selection shows the table unchanged. Otherwise the shown table is the selected rows under the same columns. |
| `Metrics.PickRowsCounts` | dashboard/app.py:359 | The filter keeps every selected row as often as it occurs, and no other row. |
| `Metrics.PickRowsAppend` | dashboard/app.py:359 | Filtering distributes over concatenation, so the row order is preserved. |
| `Metrics.PickRowsIdempotent` | dashboard/app.py:359 | Filtering twice with the same selection is the same as filtering once. |
| `Report.Step` | dashboard/app.py:237-240 | After one listed line, the cursor is at least 100, and it is never above the higher of its old value and the top line. |
| `Report.ListLines` | dashboard/app.py:232-240 | The listing loop ends at the cursor and page-break count given by the step rule. It records where each line is drawn. |
| `Report.AfterInMargins` | dashboard/app.py:232-240 | After at least one line, the cursor lies between 100 and the higher of its start and 742. So every line but possibly the first is drawn inside the margins. |
| `Report.NoBreakWhileRoom` | dashboard/app.py:237-238 | While 14-point steps stay at or above 100, lines stack downwards and no page breaks. |
| `Report.ListingComposes` | dashboard/app.py:232-240 | Listing a lines and then b more gives the same cursor and break count as listing a + b lines. |
| `Report.FullPage` | dashboard/app.py:232-240 | From the top line (height - 50), the 46th line breaks the page and returns the cursor to the top line. |
| `Report.PagesFromTop` | dashboard/app.py:232-240 | From the top line, n lines break the page n / 46 times and leave the cursor 14 * (n % 46) below the top line. |
| `Report.LayOutReport` | dashboard/app.py:210-240 | Laying out the anomaly list, or its "no anomalies" line, followed by the GPU summary gives the page-break count of `ReportBreaks`. |
| `Report.SmallReportOnePage` | dashboard/app.py:210-240 | A report listing at most 30 anomaly and GPU lines in all needs no page break. |
| `Report.NoAnomalyReportBreaks` | dashboard/app.py:210-240 | Without anomalies, a report of n GPU rows has no page break for n <= 30, and otherwise 1 + (n - 31) / 46 breaks. |

## Left out

- Upload page rendering is not modelled: layout, animation, and the toasts' appearance and text. Each notice is only a tag in `notices`.
- The 2000 ms delay is not modelled. The completion is the abstract `Finish` step, allowed whenever a callback is pending.
- Opening the dashboard in a new window (src/pages/Upload.tsx:138) is left out because it is a side effect outside the page's state.
- The file picker's `accept=".csv"` attribute only hints to the browser's dialog which files to show. The user can still choose any file, and nothing on the page rejects it, so `HandleFileChange` accepts any name, as the handler does.
- `UploadPage.Page.HandleDrop`: the suffix test is case-sensitive, as in the code. The browser's file objects are reduced to their names.
- MongoDB loading and the latest-batch selection (dashboard/app.py:72-130) are left out. They are I/O, and the full load overwrites the batch selection anyway.
- Loading the model files (dashboard/app.py:59-70) is left out because it is file I/O.
- Streamlit and Plotly rendering are left out because they are presentation only.
- IsolationForest fitting (dashboard/app.py:199-207, 383-385) is left out. It is a library call, so its -1/1 output is an input to `Metrics.Labels` and `Metrics.AnomalyIds`.
- Means, modes and the correlation matrix (dashboard/app.py:153, 156, 186-187, 365) are left out because they are floating-point statistics.
- The efficiency division (dashboard/app.py:452-453) is left out for the same reason.
- Reportlab drawing calls and PDF file writing (dashboard/app.py:471-507) are left out, as is the text drawn in the report. Only the cursor arithmetic is modelled.
- backend/app.py is left out: it is Flask routing, CSV parsing, a scaler and KMeans from joblib, and a MongoDB insert.
- Presentational components (Resources, About, Hero, FeatureCards, NotFound, Footer, GlassCard, Landing) are left out because they hold no state.
- Cells are exact reals or text. Floating-point rounding, NaN, booleans and integer dtypes are not modelled. In particular, a NaN in a missing cell of a partially filled column is not modelled: all rows of a frame hold the same columns.
- `Defaults.ApplyDefaults` requires the thermal score and compute load to be numbers when a life score is derived. The same holds for the fields each classifier compares with a threshold (`Advice.Readable`, `Metrics.Scored`). A text cell there makes Python raise a TypeError, and that failure is not modelled as a result.
- The columns of a frame are a set, so the order in which `df[c] = 0` (dashboard/app.py:134-136) appends new columns is not modelled. No modelled operation depends on column order.
- `Defaults.DefaultGpuId`: the frame index is taken to be the default 0..n-1 that a DataFrame built from records has. Another index is not modelled.
- The report's anomaly list (dashboard/app.py:199-205) and the "Detected Anomalies" metric (dashboard/app.py:383-390) come from two separate IsolationForest fits: the first on `df`, the second on `filtered_df`. Once GPUs are selected, the two outputs differ, and the report's fit can fail while the metric's does not. The model relates the count and the id list of one detector output only.
- The `try`/`except` around the anomaly detection in the report (dashboard/app.py:200-207) falls back to an empty list. That fallback is covered only because `Report.ReportBreaks` takes any anomaly count.
