/**
 * The summary of a report: how many findings are active, how many have each
 * status, and how the active ones spread over severities and categories.
 */
module ReportSummary {
  import opened Rules
  import opened Reports
  import opened Seqs

  function Active(vs: seq<Vulnerability>): seq<Vulnerability> {
    Filter(vs, IsActive)
  }

  /**
   * `calculateSummary`: `total` and the severity and category tallies count
   * the active findings, the status counts and tally count all of them.
   */
  function CalculateSummary(vs: seq<Vulnerability>): (s: VulnerabilitySummary)
    ensures s.total <= |vs|
    ensures forall sev :: Tally(s.bySeverity, sev) == CountKey(Active(vs), SeverityOf, sev)
    ensures forall cat :: Tally(s.byCategory, cat) == CountKey(Active(vs), CategoryOf, cat)
    ensures forall st :: Tally(s.byStatus, st) == CountKey(vs, StatusOf, st)
  {
    var active := Active(vs);
    VulnerabilitySummary(
      |active|,
      CountKey(vs, StatusOf, New),
      CountKey(vs, StatusOf, Persistent),
      CountKey(vs, StatusOf, Closed),
      CountBy(active, SeverityOf),
      CountBy(active, CategoryOf),
      CountBy(vs, StatusOf))
  }

  /** Every finding has exactly one of the four statuses. */
  lemma {:induction false} StatusCountsSum(vs: seq<Vulnerability>)
    ensures CountKey(vs, StatusOf, New) + CountKey(vs, StatusOf, Persistent)
          + CountKey(vs, StatusOf, Closed) + CountKey(vs, StatusOf, Fixed) == |vs|
  {
    if vs != [] {
      StatusCountsSum(vs[..|vs| - 1]);
      var st := StatusOf(vs[|vs| - 1]);
      assert st == New || st == Persistent || st == Closed || st == Fixed;
      CountKeyLast(vs, StatusOf, New);
      CountKeyLast(vs, StatusOf, Persistent);
      CountKeyLast(vs, StatusOf, Closed);
      CountKeyLast(vs, StatusOf, Fixed);
    }
  }

  /** The active findings are those that are neither CLOSED nor FIXED. */
  lemma {:induction false} ActiveCount(vs: seq<Vulnerability>)
    ensures |Active(vs)| + CountKey(vs, StatusOf, Closed) + CountKey(vs, StatusOf, Fixed) == |vs|
  {
    if vs != [] {
      ActiveCount(vs[..|vs| - 1]);
      CountKeyLast(vs, StatusOf, Closed);
      CountKeyLast(vs, StatusOf, Fixed);
    }
  }

  /** Every active finding has exactly one severity. */
  lemma {:induction false} SeverityCountsSum(vs: seq<Vulnerability>)
    ensures CountKey(vs, SeverityOf, Critical) + CountKey(vs, SeverityOf, High) + CountKey(vs, SeverityOf, Medium)
          + CountKey(vs, SeverityOf, Low) + CountKey(vs, SeverityOf, Info) == |vs|
  {
    if vs != [] {
      SeverityCountsSum(vs[..|vs| - 1]);
      var sev := SeverityOf(vs[|vs| - 1]);
      assert sev == Critical || sev == High || sev == Medium || sev == Low || sev == Info;
      CountKeyLast(vs, SeverityOf, Critical);
      CountKeyLast(vs, SeverityOf, High);
      CountKeyLast(vs, SeverityOf, Medium);
      CountKeyLast(vs, SeverityOf, Low);
      CountKeyLast(vs, SeverityOf, Info);
    }
  }

  /**
   * The counts agree with each other: the status tally adds up to the number
   * of findings, the severity tally to `total`, and `total` is what is left
   * after the CLOSED and FIXED findings.
   */
  lemma SummaryConsistent(vs: seq<Vulnerability>)
    ensures var s := CalculateSummary(vs);
            && s.newCount == Tally(s.byStatus, New)
            && s.persistentCount == Tally(s.byStatus, Persistent)
            && s.closedCount == Tally(s.byStatus, Closed)
            && Tally(s.byStatus, New) + Tally(s.byStatus, Persistent) + Tally(s.byStatus, Closed) + Tally(s.byStatus, Fixed) == |vs|
            && Tally(s.bySeverity, Critical) + Tally(s.bySeverity, High) + Tally(s.bySeverity, Medium)
             + Tally(s.bySeverity, Low) + Tally(s.bySeverity, Info) == s.total
            && s.total + s.closedCount + Tally(s.byStatus, Fixed) == |vs|
  {
    StatusCountsSum(vs);
    SeverityCountsSum(Active(vs));
    ActiveCount(vs);
  }
}
