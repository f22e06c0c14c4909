/**
 * The order `getAllReports` returns reports in: `sortedByDescending` on the
 * scan's end time, a stable sort, written here as an insertion sort.
 */
module ReportOrder {
  import opened Reports
  import opened Seqs

  predicate NewestFirst(reports: seq<ScanReport>) {
    forall i, j :: 0 <= i < j < |reports| ==> reports[i].scanEndTime >= reports[j].scanEndTime
  }

  /** Where a report goes in a newest-first list: after every report that ended no earlier. */
  function InsertPos(sorted: seq<ScanReport>, report: ScanReport): (pos: nat)
    ensures pos <= |sorted|
    ensures forall i :: 0 <= i < pos ==> sorted[i].scanEndTime >= report.scanEndTime
    ensures pos < |sorted| ==> sorted[pos].scanEndTime < report.scanEndTime
  {
    if sorted == [] || sorted[0].scanEndTime < report.scanEndTime then 0
    else 1 + InsertPos(sorted[1..], report)
  }

  function InsertByEnd(sorted: seq<ScanReport>, report: ScanReport): seq<ScanReport> {
    var pos := InsertPos(sorted, report);
    sorted[..pos] + [report] + sorted[pos..]
  }

  /** `sortedByDescending { it.scanEndTime }`: each report inserted, in list order, into the sorted earlier ones. */
  function SortByEndDescending(reports: seq<ScanReport>): (sorted: seq<ScanReport>)
    ensures |sorted| == |reports|
  {
    if reports == [] then []
    else InsertByEnd(SortByEndDescending(reports[..|reports| - 1]), reports[|reports| - 1])
  }

  lemma InsertByEndPermutes(sorted: seq<ScanReport>, report: ScanReport)
    ensures multiset(InsertByEnd(sorted, report)) == multiset(sorted) + multiset{report}
  {
    var pos := InsertPos(sorted, report);
    assert sorted == sorted[..pos] + sorted[pos..];
  }

  /** Sorting neither loses nor duplicates a report. */
  lemma {:induction false} SortByEndPermutes(reports: seq<ScanReport>)
    ensures multiset(SortByEndDescending(reports)) == multiset(reports)
  {
    if reports != [] {
      var init := reports[..|reports| - 1];
      SortByEndPermutes(init);
      InsertByEndPermutes(SortByEndDescending(init), reports[|reports| - 1]);
      assert reports == init + [reports[|reports| - 1]];
    }
  }

  lemma InsertByEndNewestFirst(sorted: seq<ScanReport>, report: ScanReport)
    requires NewestFirst(sorted)
    ensures NewestFirst(InsertByEnd(sorted, report))
  {
    var pos := InsertPos(sorted, report);
    var inserted := InsertByEnd(sorted, report);
    forall i, j | 0 <= i < j < |inserted|
      ensures inserted[i].scanEndTime >= inserted[j].scanEndTime
    {
      if j == pos {
        assert inserted[i] == sorted[i];
      } else if i == pos {
        assert inserted[j] == sorted[j - 1];
        assert sorted[pos].scanEndTime < report.scanEndTime;
      } else {
        var i' := if i < pos then i else i - 1;
        var j' := if j < pos then j else j - 1;
        assert inserted[i] == sorted[i'] && inserted[j] == sorted[j'];
      }
    }
  }

  /** Sorting puts every report before the ones that ended earlier. */
  lemma {:induction false} SortByEndNewestFirst(reports: seq<ScanReport>)
    ensures NewestFirst(SortByEndDescending(reports))
  {
    if reports != [] {
      SortByEndNewestFirst(reports[..|reports| - 1]);
      InsertByEndNewestFirst(SortByEndDescending(reports[..|reports| - 1]), reports[|reports| - 1]);
    }
  }

  function EndsAt(time: int): ScanReport -> bool {
    (report: ScanReport) => report.scanEndTime == time
  }

  lemma {:induction false} NoneEndsAt(reports: seq<ScanReport>, time: int)
    requires forall i :: 0 <= i < |reports| ==> reports[i].scanEndTime < time
    ensures Filter(reports, EndsAt(time)) == []
  {
    if reports != [] {
      NoneEndsAt(reports[..|reports| - 1], time);
    }
  }

  /** Inserting a report appends it after the reports that ended at the same time. */
  lemma InsertByEndStable(sorted: seq<ScanReport>, report: ScanReport, time: int)
    requires NewestFirst(sorted)
    ensures Filter(InsertByEnd(sorted, report), EndsAt(time))
         == Filter(sorted, EndsAt(time)) + (if report.scanEndTime == time then [report] else [])
  {
    var p := EndsAt(time);
    var pos := InsertPos(sorted, report);
    var own := if report.scanEndTime == time then [report] else [];
    InsertByEndFiltered(sorted, report, time);
    if report.scanEndTime == time {
      LaterEndedEarlier(sorted, report);
    }
    SwapEmpty(Filter(sorted[..pos], p), own, Filter(sorted[pos..], p));
  }

  /** Filtering the inserted list: the reports before the position, the inserted one, the ones after it. */
  lemma InsertByEndFiltered(sorted: seq<ScanReport>, report: ScanReport, time: int)
    ensures var p, pos := EndsAt(time), InsertPos(sorted, report);
            && Filter(InsertByEnd(sorted, report), p)
               == Filter(sorted[..pos], p) + (if report.scanEndTime == time then [report] else []) + Filter(sorted[pos..], p)
            && Filter(sorted, p) == Filter(sorted[..pos], p) + Filter(sorted[pos..], p)
  {
    var p := EndsAt(time);
    var pos := InsertPos(sorted, report);
    var before, after := sorted[..pos], sorted[pos..];
    FilterAround(before, report, after, p);
    assert sorted == before + after;
    FilterAppend(before, after, p);
  }

  /** In a newest-first list, no report from the insertion position on ended when the inserted one did. */
  lemma LaterEndedEarlier(sorted: seq<ScanReport>, report: ScanReport)
    requires NewestFirst(sorted)
    ensures Filter(sorted[InsertPos(sorted, report)..], EndsAt(report.scanEndTime)) == []
  {
    var pos := InsertPos(sorted, report);
    var after := sorted[pos..];
    forall i | 0 <= i < |after|
      ensures after[i].scanEndTime < report.scanEndTime
    {
      assert after[i] == sorted[pos + i];
    }
    NoneEndsAt(after, report.scanEndTime);
  }

  lemma SwapEmpty<T>(a: seq<T>, b: seq<T>, c: seq<T>)
    requires b == [] || c == []
    ensures a + b + c == a + c + b
  {
    if b == [] {
      assert a + b == a;
      assert a + c + b == a + c;
    } else {
      assert a + c == a;
      assert a + b + c == a + b;
    }
  }

  /** The sort is stable: reports that ended at the same time keep their list order. */
  lemma {:induction false} SortByEndStable(reports: seq<ScanReport>, time: int)
    ensures Filter(SortByEndDescending(reports), EndsAt(time)) == Filter(reports, EndsAt(time))
  {
    if reports != [] {
      var init := reports[..|reports| - 1];
      SortByEndStable(init, time);
      SortByEndNewestFirst(init);
      InsertByEndStable(SortByEndDescending(init), reports[|reports| - 1], time);
    }
  }
}
