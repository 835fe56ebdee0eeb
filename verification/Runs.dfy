/** The runs of a backup store (core/backup/main.go) and the filter selecting them. */
module Runs {

  /** An instant. `ZERO_TIME` is Go's zero time, which stands for "no time"; no run is created before it. */
  type Time = nat
  const ZERO_TIME: Time := 0

  datatype Run = Run(
    id: string,
    clusterID: string,
    clusterName: string,
    objectID: string,
    node: string,
    createdAt: Time,
    completedAt: Time,
    protected: bool,
    logicalBytes: int,
    storedBytes: int)
  {
    predicate Completed() {
      completedAt != ZERO_TIME
    }
  }

  datatype RunFilter = RunFilter(
    objectID: string,
    cluster: string,
    id: string,
    incomplete: bool,
    since: Time,
    until: Time)
  {
    /** Whether the filter selects the run. */
    predicate Match(run: Run) {
      && (objectID == "" || run.objectID == objectID)
      && (cluster == "" || run.clusterID == cluster || run.clusterName == cluster)
      && (id == "" || id <= run.id)
      && (incomplete || run.Completed())
      && (since == ZERO_TIME || since <= run.createdAt)
      && (until == ZERO_TIME || run.createdAt < until)
    }

    /** Whether an object whose completed runs were created between `first` and `last` may hold a selected run. */
    predicate MayHold(first: Time, last: Time) {
      || first == ZERO_TIME
      || last == ZERO_TIME
      || (&& (since == ZERO_TIME || since <= last)
          && (until == ZERO_TIME || first < until))
    }
  }

  /** The filter that asks for nothing, and takes the runs not completed too. */
  const ANY := RunFilter("", "", "", true, ZERO_TIME, ZERO_TIME)

  /** A run is selected when each thing the filter asks for, asked for alone, selects it. */
  lemma AskedForAlone(f: RunFilter, run: Run)
    ensures f.Match(run) <==>
            && ANY.(objectID := f.objectID).Match(run) && ANY.(cluster := f.cluster).Match(run)
            && ANY.(id := f.id).Match(run) && ANY.(incomplete := f.incomplete).Match(run)
            && ANY.(since := f.since).Match(run) && ANY.(until := f.until).Match(run)
  {
  }

  /** What each thing a filter asks for selects, alone. */
  lemma AskedFor(run: Run, s: string, tail: string, t: Time)
    requires s != "" && t != ZERO_TIME
    ensures ANY.Match(run)
    ensures ANY.(objectID := s).Match(run) <==> run.objectID == s
    ensures ANY.(cluster := s).Match(run) <==> run.clusterID == s || run.clusterName == s
    ensures ANY.(id := s).Match(run.(id := s + tail))
    ensures |run.id| < |s| || run.id[..|s|] != s ==> !ANY.(id := s).Match(run)
    ensures ANY.(incomplete := false).Match(run) <==> run.completedAt != ZERO_TIME
    ensures ANY.(since := t).Match(run) <==> run.createdAt >= t
    ensures ANY.(until := t).Match(run) <==> run.createdAt < t
  {
    assert s <= s + tail;
  }

  /** An instant splits what a filter selects in two, and no run is on both sides. */
  lemma SplitsAt(f: RunFilter, t: Time, run: Run)
    requires t != ZERO_TIME && f.since <= t && (f.until == ZERO_TIME || t <= f.until)
    ensures f.Match(run) <==> f.(until := t).Match(run) || f.(since := t).Match(run)
    ensures !(f.(until := t).Match(run) && f.(since := t).Match(run))
  {
  }
}
