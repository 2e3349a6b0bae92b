/** The line cursor of the PDF lifecycle report (dashboard/app.py:210-240).
    The report is drawn on US-letter pages, 792 points high, from the top
    down.  Each listed line lowers the cursor by 14 points; when the cursor
    falls below 100 the page is finished and the cursor moves back to 50
    points below the top of a fresh page.  Only the cursor arithmetic is
    modelled: the drawing itself is not. */
module Report {

  /** Height of a US-letter page in points. */
  const PageHeight: int := 792
  /** Where the cursor restarts on a fresh page (`height - 50`). */
  const TopLine: int := PageHeight - 50
  /** The cursor may not stay below this line. */
  const BottomMargin: int := 100
  /** Space taken by one listed line. */
  const LineStep: int := 14

  /** One listed line: lower the cursor, and break the page when it falls
      below the bottom margin. */
  function Step(y: int): (y': int)
    ensures y' >= BottomMargin
    ensures y' <= if y <= TopLine then TopLine else y
  {
    if y - LineStep < BottomMargin then TopLine else y - LineStep
  }

  /** Whether listing one line at cursor `y` breaks the page. */
  predicate Breaks(y: int) {
    y - LineStep < BottomMargin
  }

  /** The cursor after `n` listed lines starting at `y`. */
  function After(y: int, n: nat): int {
    if n == 0 then y else Step(After(y, n - 1))
  }

  /** The number of page breaks while listing `n` lines starting at `y`. */
  function PageBreaks(y: int, n: nat): nat {
    if n == 0 then 0 else PageBreaks(y, n - 1) + (if Breaks(After(y, n - 1)) then 1 else 0)
  }

  /** The loops at lines 216-221 and 232-240: list `n` lines from cursor
      `start`.  `at[k]` is where line k is drawn. */
  method ListLines(start: int, n: nat) returns (y: int, breaks: nat, at: seq<int>)
    ensures y == After(start, n) && breaks == PageBreaks(start, n)
    ensures |at| == n
    ensures forall k | 0 <= k < n :: at[k] == After(start, k)
  {
    y, breaks, at := start, 0, [];
    for k := 0 to n
      invariant y == After(start, k) && breaks == PageBreaks(start, k)
      invariant |at| == k && forall j | 0 <= j < k :: at[j] == After(start, j)
    {
      assert After(start, k + 1) == Step(y);
      assert PageBreaks(start, k + 1) == breaks + if Breaks(y) then 1 else 0;
      at := at + [y];
      y := y - LineStep;
      if y < BottomMargin {
        breaks := breaks + 1;
        y := TopLine;
      }
    }
  }

  /** After at least one line the cursor is never below the bottom margin and
      never above the higher of its start and the top line: every line but
      possibly the first is drawn inside the page's margins. */
  lemma {:induction false} AfterInMargins(y: int, n: nat)
    requires n >= 1
    ensures BottomMargin <= After(y, n) <= if y <= TopLine then TopLine else y
  {
    if n > 1 {
      AfterInMargins(y, n - 1);
    }
  }

  /** While the cursor stays above the margin, lines simply stack downwards. */
  lemma {:induction false} NoBreakWhileRoom(y: int, n: nat)
    requires y - LineStep * n >= BottomMargin
    ensures After(y, n) == y - LineStep * n
    ensures PageBreaks(y, n) == 0
  {
    if n > 0 {
      NoBreakWhileRoom(y, n - 1);
    }
  }

  /** Listing `a` lines and then `b` more is listing `a + b` lines. */
  lemma {:induction false} ListingComposes(y: int, a: nat, b: nat)
    ensures After(y, a + b) == After(After(y, a), b)
    ensures PageBreaks(y, a + b) == PageBreaks(y, a) + PageBreaks(After(y, a), b)
  {
    if b > 0 {
      ListingComposes(y, a, b - 1);
    }
  }

  /** Lines a full page holds, counted from the top line. */
  const LinesPerPage: nat := 46

  /** From the top line, the 46th line breaks the page and nothing before it does. */
  lemma FullPage()
    ensures After(TopLine, LinesPerPage) == TopLine
    ensures PageBreaks(TopLine, LinesPerPage) == 1
  {
    NoBreakWhileRoom(TopLine, LinesPerPage - 1);
  }

  /** Starting from the top line, `n` lines break the page `n / 46` times and
      leave the cursor `14 * (n % 46)` below the top line. */
  lemma {:induction false} PagesFromTop(n: nat)
    ensures PageBreaks(TopLine, n) == n / LinesPerPage
    ensures After(TopLine, n) == TopLine - LineStep * (n % LinesPerPage)
  {
    if n < LinesPerPage {
      NoBreakWhileRoom(TopLine, n);
    } else {
      FullPage();
      ListingComposes(TopLine, LinesPerPage, n - LinesPerPage);
      PagesFromTop(n - LinesPerPage);
    }
  }

  /** Where the anomaly list starts: below the title, the summary lines and
      the anomaly heading (`height - 200 - 18`). */
  const AnomalyListTop: int := PageHeight - 200 - 18

  /** The report's page breaks from the anomaly list and the GPU summary.
      With anomalies they are listed one per line; without, a single notice
      line takes 18 points.  The GPU summary starts 10 points lower, under
      a heading of 18 points. */
  function ReportBreaks(anomalies: nat, rows: nat): nat {
    var yAnom := if anomalies > 0 then After(AnomalyListTop, anomalies) else AnomalyListTop - 18;
    var anomalyBreaks := if anomalies > 0 then PageBreaks(AnomalyListTop, anomalies) else 0;
    anomalyBreaks + PageBreaks(yAnom - 10 - 18, rows)
  }

  /** Lines 210-240: lays out the anomaly list and the GPU summary and
      counts the page breaks. */
  method LayOutReport(anomalies: nat, rows: nat) returns (breaks: nat)
    ensures breaks == ReportBreaks(anomalies, rows)
  {
    var yAnom := AnomalyListTop;
    var anomalyBreaks := 0;
    if anomalies > 0 {
      var at;
      yAnom, anomalyBreaks, at := ListLines(yAnom, anomalies);
    } else {
      yAnom := yAnom - 18;
    }
    var y := yAnom - 10;
    y := y - 18;
    var rowBreaks, at;
    y, rowBreaks, at := ListLines(y, rows);
    breaks := anomalyBreaks + rowBreaks;
  }

  /** A report listing at most 30 lines in all (anomalies plus GPUs) fits on
      its first page. */
  lemma SmallReportOnePage(anomalies: nat, rows: nat)
    requires anomalies + rows <= 30
    ensures ReportBreaks(anomalies, rows) == 0
  {
    if anomalies > 0 {
      NoBreakWhileRoom(AnomalyListTop, anomalies);
      NoBreakWhileRoom(AnomalyListTop - LineStep * anomalies - 28, rows);
    } else {
      NoBreakWhileRoom(AnomalyListTop - 18 - 28, rows);
    }
  }

  /** Without anomalies the GPU summary starts 46 points under the list top,
      so its 31st line breaks the first page and every further 46 lines
      break one more. */
  lemma NoAnomalyReportBreaks(rows: nat)
    ensures ReportBreaks(0, rows) == if rows <= 30 then 0 else 1 + (rows - 31) / LinesPerPage
  {
    var y := AnomalyListTop - 18 - 10 - 18;
    if rows <= 30 {
      NoBreakWhileRoom(y, rows);
    } else {
      NoBreakWhileRoom(y, 30);
      ListingComposes(y, 31, rows - 31);
      PagesFromTop(rows - 31);
    }
  }
}
