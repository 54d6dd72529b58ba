/**
  The bookkeeping around the per-year jobs: the list of years to process,
  the summary entry recorded for each year, and the overall totals printed
  at the end of a run.
*/
module Summary {
  import opened Wrappers

  /** `list(range(start, end + 1))` sorted in reverse: newest year first. */
  function Years(start: int, end: int): (r: seq<int>)
    decreases end - start
    ensures |r| == if start <= end then end - start + 1 else 0
    ensures forall i :: 0 <= i < |r| ==> r[i] == end - i
    ensures forall y :: y in r <==> start <= y <= end
  {
    if start > end then [] else [end] + Years(start, end - 1)
  }

  /** The years come in strictly descending order, hence without repeats. */
  lemma YearsDescending(start: int, end: int)
    ensures var ys := Years(start, end);
      forall i, j :: 0 <= i < j < |ys| ==> ys[i] > ys[j]
  {
  }

  /** How one year's job ended: it returned `(total, downloaded)` or raised. */
  datatype JobOutcome = Returned(total: int, downloaded: int) | Raised(message: string)

  /** One value of the summary dict: `{'total', 'downloaded'}` plus `'error'`
      for a job that raised. */
  datatype YearEntry = YearEntry(total: int, downloaded: int, error: Option<string>)

  type Summary = map<int, YearEntry>

  /** The entry the threaded mode records for a finished job: an error entry
      exactly for a job that raised, counting nothing, and sensible counts
      for a job that returned sensible counts. */
  function EntryFor(o: JobOutcome): (e: YearEntry)
    ensures e.error.Some? <==> o.Raised?
    ensures e.error.Some? ==> e.total == 0 && e.downloaded == 0
    ensures WellFormed(o) ==> EntryBounded(e)
  {
    match o
    case Returned(t, d) => YearEntry(t, d, None)
    case Raised(m) => YearEntry(0, 0, Some(m))
  }

  /** The summary of a run in which every year's job has finished: one entry
      per year processed, an error entry exactly for the years whose job
      raised, and only bounded entries when every job is well-formed. */
  function SummaryOf(start: int, end: int, job: int -> JobOutcome): (s: Summary)
    ensures forall y :: y in s <==> y in Years(start, end)
    ensures forall y :: y in s ==> (s[y].error.Some? <==> job(y).Raised?)
    ensures (forall y :: start <= y <= end ==> WellFormed(job(y))) ==>
      forall y :: y in s ==> EntryBounded(s[y])
  {
    map y | start <= y <= end :: EntryFor(job(y))
  }

  /** `min(len(years), max_workers)`, the size the worker pool is asked for. */
  function PoolSize(yearCount: nat, maxWorkers: int): (n: int)
    ensures n <= yearCount && n <= maxWorkers
    ensures n == yearCount || n == maxWorkers
  {
    if yearCount <= maxWorkers then yearCount else maxWorkers
  }

  /** The message of the `ValueError` a worker pool of size zero or less raises. */
  const PoolError: string := "max_workers must be greater than 0"

  /** A job that returned sensible counts, `0 <= downloaded <= total`. */
  predicate WellFormed(o: JobOutcome)
  {
    o.Returned? ==> 0 <= o.downloaded <= o.total
  }

  predicate EntryBounded(e: YearEntry)
  {
    0 <= e.downloaded <= e.total
  }

  /** Every year visited has an entry. */
  predicate InSummary(summary: Summary, order: seq<int>)
  {
    forall i :: 0 <= i < |order| ==> order[i] in summary
  }

  /** Sum of one count over the entries of `summary`, visiting the years in
      `order`. */
  function SumTotal(summary: Summary, order: seq<int>): (r: int)
    requires InSummary(summary, order)
    ensures (forall i :: 0 <= i < |order| ==> summary[order[i]].total >= 0) ==> r >= 0
  {
    if order == [] then 0 else summary[order[0]].total + SumTotal(summary, order[1..])
  }

  function SumDownloaded(summary: Summary, order: seq<int>): (r: int)
    requires InSummary(summary, order)
    ensures (forall i :: 0 <= i < |order| ==> summary[order[i]].downloaded >= 0) ==> r >= 0
  {
    if order == [] then 0 else summary[order[0]].downloaded + SumDownloaded(summary, order[1..])
  }

  /** Taking out the year at position k: the sums are that year's counts
      plus the sums over the remaining years. */
  lemma {:induction false} SumWithout(summary: Summary, order: seq<int>, k: nat)
    requires InSummary(summary, order)
    requires k < |order|
    ensures var rest := order[..k] + order[k + 1..];
      SumTotal(summary, order) == summary[order[k]].total + SumTotal(summary, rest) &&
      SumDownloaded(summary, order) == summary[order[k]].downloaded + SumDownloaded(summary, rest)
  {
    if k > 0 {
      SumWithout(summary, order[1..], k - 1);
      assert order[1..][..k - 1] + order[1..][k..] == (order[..k] + order[k + 1..])[1..];
    } else {
      assert order[..k] + order[k + 1..] == order[1..];
    }
  }

  /** Taking the first year off one ordering and the same year off another
      ordering of the same years leaves two orderings of the same years. */
  lemma RemoveMatching(o1: seq<int>, o2: seq<int>, k: nat)
    requires multiset(o1) == multiset(o2)
    requires o1 != [] && k < |o2| && o2[k] == o1[0]
    ensures multiset(o1[1..]) == multiset(o2[..k] + o2[k + 1..])
  {
    var y := o1[0];
    var rest2 := o2[..k] + o2[k + 1..];
    assert o2 == o2[..k] + [y] + o2[k + 1..];
    assert multiset(o2) == multiset(o2[..k]) + multiset{y} + multiset(o2[k + 1..]);
    assert multiset(rest2) == multiset(o2[..k]) + multiset(o2[k + 1..]);
    assert o1 == [y] + o1[1..];
    assert multiset(o1) == multiset{y} + multiset(o1[1..]);
    forall x ensures multiset(o1[1..])[x] == multiset(rest2)[x] {
      assert multiset(o1)[x] == multiset{y}[x] + multiset(o1[1..])[x];
      assert multiset(o2)[x] == multiset{y}[x] + multiset(rest2)[x];
    }
  }

  /** The totals do not depend on the order in which the years are visited:
      any rearrangement of the same years gives the same sums. */
  lemma {:induction false} TotalsOrderIndependent(summary: Summary, o1: seq<int>, o2: seq<int>)
    requires InSummary(summary, o1)
    requires multiset(o1) == multiset(o2)
    ensures InSummary(summary, o2)
    ensures SumTotal(summary, o1) == SumTotal(summary, o2)
    ensures SumDownloaded(summary, o1) == SumDownloaded(summary, o2)
  {
    forall i | 0 <= i < |o2| ensures o2[i] in summary {
      assert o2[i] in multiset(o2);
      assert o2[i] in o1;
    }
    if o1 != [] {
      var y := o1[0];
      assert y in multiset(o2);
      var k :| 0 <= k < |o2| && o2[k] == y;
      var rest2 := o2[..k] + o2[k + 1..];
      SumWithout(summary, o2, k);
      RemoveMatching(o1, o2, k);
      TotalsOrderIndependent(summary, o1[1..], rest2);
    } else {
      assert |multiset(o2)| == 0;
    }
  }

  /** When every entry has `0 <= downloaded <= total`, so do the totals. */
  lemma {:induction false} TotalsBounded(summary: Summary, order: seq<int>)
    requires InSummary(summary, order)
    requires forall y :: y in summary ==> EntryBounded(summary[y])
    ensures 0 <= SumDownloaded(summary, order) <= SumTotal(summary, order)
  {
    if order != [] {
      TotalsBounded(summary, order[1..]);
    }
  }

  /** Every entry of a summary built from well-formed jobs is bounded; a year
      whose job raised counts as `0` found and `0` downloaded. */
  lemma SummaryEntriesBounded(start: int, end: int, job: int -> JobOutcome)
    requires forall y :: start <= y <= end ==> WellFormed(job(y))
    ensures var s := SummaryOf(start, end, job);
      forall y :: y in s ==> EntryBounded(s[y])
  {
  }

  /** The totals printed after a run: visiting the summary in its insertion
      order (newest year first) covers every entry, and with well-formed jobs
      the overall number downloaded never exceeds the number found. */
  lemma {:induction false} RunTotalsBounded(start: int, end: int, job: int -> JobOutcome)
    requires forall y :: start <= y <= end ==> WellFormed(job(y))
    ensures InSummary(SummaryOf(start, end, job), Years(start, end))
    ensures 0 <= SumDownloaded(SummaryOf(start, end, job), Years(start, end))
              <= SumTotal(SummaryOf(start, end, job), Years(start, end))
  {
    var s := SummaryOf(start, end, job);
    var ys := Years(start, end);
    assert InSummary(s, ys) by {
      forall i | 0 <= i < |ys| ensures ys[i] in s {
        assert ys[i] in ys;
      }
    }
    SummaryEntriesBounded(start, end, job);
    TotalsBounded(s, ys);
  }
}
