/**
 The retention of the runs of an object (core/backup/retention.go): which runs a keep drops.

 `Drop` is the loop of the source. `KeptAt` is its meaning, stated position by position. `Survive`
 is the same selection read as a machine that looks at one run at a time, newest first; a run it
 drops leaves the machine as it was, which is what makes pruning after every run the same as
 pruning once.
 */
module Retention {
  import opened Runs

  datatype PeriodUnit = Hour | Day | Week | Month | Year

  /** The period of a unit an instant falls in. Nothing is asked of it: the calendar is a parameter. */
  type Calendar = (PeriodUnit, Time) -> string

  datatype Period = Period(unit: PeriodUnit, count: int)

  datatype Retention = Retention(last: int, periods: seq<Period>)
  {
    predicate IsZero() {
      last == 0 && periods == []
    }

    /** What ParseRetention returns: positive counts, one rule a unit. */
    ghost predicate Parsed() {
      && 0 <= last
      && (forall k :: 0 <= k < |periods| ==> 0 < periods[k].count)
      && (forall j, k :: 0 <= j < k < |periods| ==> periods[j].unit != periods[k].unit)
    }
  }

  // ---------------------------------------------------------------- newest first

  ghost predicate Sorted(s: seq<Run>) {
    forall i, j :: 0 <= i < j < |s| ==> s[i].createdAt >= s[j].createdAt
  }

  /** Puts `x` after the runs at least as new: what a stable sort does with the last run of its input. */
  function Insert(s: seq<Run>, x: Run): seq<Run> {
    if s == [] || s[0].createdAt < x.createdAt then [x] + s else [s[0]] + Insert(s[1..], x)
  }

  /** The runs, newest first, runs created at the same time in the order given. */
  function NewestFirst(runs: seq<Run>): seq<Run> {
    if runs == [] then [] else Insert(NewestFirst(runs[..|runs| - 1]), runs[|runs| - 1])
  }

  /** The runs created at `t`, in order. */
  ghost function At(s: seq<Run>, t: Time): seq<Run> {
    if s == [] then [] else (if s[0].createdAt == t then [s[0]] else []) + At(s[1..], t)
  }

  lemma {:induction false} InsertContents(s: seq<Run>, x: Run)
    ensures multiset(Insert(s, x)) == multiset(s) + multiset{x}
  {
    if s != [] && s[0].createdAt >= x.createdAt {
      InsertContents(s[1..], x);
      assert s == [s[0]] + s[1..];
    }
  }

  ghost predicate NoneNewer(s: seq<Run>, t: Time) {
    forall i :: 0 <= i < |s| ==> s[i].createdAt <= t
  }

  lemma {:induction false} InsertNoneNewer(s: seq<Run>, x: Run, t: Time)
    requires NoneNewer(s, t) && x.createdAt <= t
    ensures NoneNewer(Insert(s, x), t)
  {
    if s == [] || s[0].createdAt < x.createdAt {
    } else {
      InsertNoneNewer(s[1..], x, t);
    }
  }

  lemma NewestAhead(h: Run, s: seq<Run>)
    requires Sorted(s) && NoneNewer(s, h.createdAt)
    ensures Sorted([h] + s)
  {
  }

  lemma {:induction false} InsertSorted(s: seq<Run>, x: Run)
    requires Sorted(s)
    ensures Sorted(Insert(s, x))
  {
    if s == [] {
    } else if s[0].createdAt < x.createdAt {
      NewestAhead(x, s);
    } else {
      InsertSorted(s[1..], x);
      InsertNoneNewer(s[1..], x, s[0].createdAt);
      NewestAhead(s[0], Insert(s[1..], x));
    }
  }

  /** A run goes last among the ones created at the same time. */
  lemma {:induction false} InsertStable(s: seq<Run>, x: Run, t: Time)
    requires Sorted(s)
    ensures At(Insert(s, x), t) == At(s + [x], t)
  {
    AtConcat(s, [x], t);
    if s == [] || s[0].createdAt < x.createdAt {
      AtConcat([x], s, t);
      if x.createdAt == t { AtNone(s, t); }
    } else {
      InsertStable(s[1..], x, t);
      AtConcat(s[1..], [x], t);
    }
  }

  lemma {:induction false} AtNone(s: seq<Run>, t: Time)
    requires forall i :: 0 <= i < |s| ==> s[i].createdAt != t
    ensures At(s, t) == []
  {
    if s == [] {
    } else {
      AtNone(s[1..], t);
    }
  }

  lemma AtHead(s: seq<Run>)
    requires s != []
    ensures At(s, s[0].createdAt) != [] && At(s, s[0].createdAt)[0] == s[0]
  {
  }

  lemma {:induction false} AtConcat(a: seq<Run>, b: seq<Run>, t: Time)
    ensures At(a + b, t) == At(a, t) + At(b, t)
  {
    if a == [] {
      assert a + b == b;
    } else {
      var h := if a[0].createdAt == t then [a[0]] else [];
      AtConcat(a[1..], b, t);
      assert (a + b)[0] == a[0] && (a + b)[1..] == a[1..] + b;
      assert h + (At(a[1..], t) + At(b, t)) == h + At(a[1..], t) + At(b, t);
    }
  }

  /** NewestFirst is the stable sort: sorted, a permutation, ties in the order given. */
  lemma {:induction false} NewestFirstIsStableSort(runs: seq<Run>)
    ensures Sorted(NewestFirst(runs))
    ensures multiset(NewestFirst(runs)) == multiset(runs)
    ensures forall t :: At(NewestFirst(runs), t) == At(runs, t)
  {
    if runs == [] {
    } else {
      var init, x := runs[..|runs| - 1], runs[|runs| - 1];
      assert runs == init + [x];
      NewestFirstIsStableSort(init);
      InsertSorted(NewestFirst(init), x);
      InsertContents(NewestFirst(init), x);
      forall t ensures At(NewestFirst(runs), t) == At(runs, t) {
        InsertStable(NewestFirst(init), x, t);
        AtConcat(init, [x], t);
        AtConcat(NewestFirst(init), [x], t);
      }
    }
  }

  /** There is only one stable sort, so any implementation of it gives NewestFirst. */
  lemma {:induction false} StableSortIsUnique(a: seq<Run>, b: seq<Run>)
    requires Sorted(a) && Sorted(b)
    requires forall t :: At(a, t) == At(b, t)
    ensures a == b
  {
    if a == [] {
      if b != [] { AtHead(b); }
    } else {
      var t := a[0].createdAt;
      assert At(a, t) == At(b, t);
      if b == [] || b[0].createdAt < t { AtNone(b, t); }
      AtHead(b);
      if b[0].createdAt > t { AtNone(a, b[0].createdAt); }
      AtHead(a);
      forall u ensures At(a[1..], u) == At(b[1..], u) {
        var h := if a[0].createdAt == u then [a[0]] else [];
        assert At(a, u) == At(b, u);
        assert At(a, u)[|h|..] == At(a[1..], u) && At(b, u)[|h|..] == At(b[1..], u);
      }
      StableSortIsUnique(a[1..], b[1..]);
      assert a == [a[0]] + a[1..] && b == [b[0]] + b[1..];
    }
  }

  // ---------------------------------------------------------------- what a retention keeps

  /** The periods of a unit the runs fall in. */
  ghost function Buckets(cal: Calendar, u: PeriodUnit, s: seq<Run>): set<string> {
    set i | 0 <= i < |s| :: cal(u, s[i].createdAt)
  }

  /** Run `i` is the newest of its period, and its period is one of the `count` newest holding a run. */
  ghost predicate Represents(cal: Calendar, p: Period, s: seq<Run>, i: nat)
    requires i < |s|
  {
    && cal(p.unit, s[i].createdAt) !in Buckets(cal, p.unit, s[..i])
    && (p.count < 0 || |Buckets(cal, p.unit, s[..i])| < p.count)
  }

  ghost predicate RepresentsSome(cal: Calendar, periods: seq<Period>, s: seq<Run>, i: nat)
    requires i < |s|
  {
    exists k :: 0 <= k < |periods| && Represents(cal, periods[k], s, i)
  }

  /** Run `i` is kept by the number of runs, or by one of the first `n` period rules. */
  ghost predicate KeptUpTo(r: Retention, cal: Calendar, n: nat, s: seq<Run>, i: nat)
    requires i < |s| && n <= |r.periods|
  {
    i < r.last || RepresentsSome(cal, r.periods[..n], s, i)
  }

  /** Run `i` of the runs, newest first, is kept: by the number of runs, or by a period rule. */
  ghost predicate KeptAt(r: Retention, cal: Calendar, s: seq<Run>, i: nat)
    requires i < |s|
  {
    KeptUpTo(r, cal, |r.periods|, s, i)
  }

  /** The runs from position `i` on whose position is in `kept`, newest first. */
  ghost function Picked(s: seq<Run>, kept: set<nat>, i: nat): seq<Run>
    requires i <= |s|
    decreases |s| - i
  {
    if i == |s| then [] else (if i in kept then [s[i]] else []) + Picked(s, kept, i + 1)
  }

  /** The runs from position `i` on whose position is not in `kept`, oldest first. */
  ghost function Left(s: seq<Run>, kept: set<nat>, i: nat): seq<Run>
    requires i <= |s|
    decreases |s| - i
  {
    if i == |s| then [] else Left(s, kept, i + 1) + (if i in kept then [] else [s[i]])
  }

  ghost function KeptPositions(r: Retention, cal: Calendar, s: seq<Run>): set<nat> {
    set i: nat | i < |s| && KeptAt(r, cal, s, i)
  }

  /** `seen` after the rule `p` looked at the runs `s`: the first `count` periods met. */
  ghost predicate SeenAfter(cal: Calendar, p: Period, seen: set<string>, s: seq<Run>) {
    var b := Buckets(cal, p.unit, s);
    if p.count < 0 || |b| <= p.count then seen == b else |seen| == p.count
  }

  lemma SubsetSize<T>(a: set<T>, b: set<T>)
    requires a <= b
    ensures |a| <= |b|
  {
    assert b == a + (b - a);
  }

  lemma BucketsGrow(cal: Calendar, u: PeriodUnit, s: seq<Run>, i: nat)
    requires i < |s|
    ensures Buckets(cal, u, s[..i + 1]) == Buckets(cal, u, s[..i]) + {cal(u, s[i].createdAt)}
  {
    var a, b := s[..i], s[..i + 1];
    assert b == a + [s[i]];
    forall x | x in Buckets(cal, u, a) ensures x in Buckets(cal, u, b) {
      var k :| 0 <= k < |a| && x == cal(u, a[k].createdAt);
      assert b[k] == a[k];
    }
    assert b[i] == s[i];
  }

  lemma {:induction false} BucketsMonotone(cal: Calendar, u: PeriodUnit, s: seq<Run>, i: nat, j: nat)
    requires i <= j <= |s|
    ensures |Buckets(cal, u, s[..i])| <= |Buckets(cal, u, s[..j])|
    decreases j - i
  {
    if i < j {
      BucketsGrow(cal, u, s, i);
      SubsetSize(Buckets(cal, u, s[..i]), Buckets(cal, u, s[..i + 1]));
      BucketsMonotone(cal, u, s, i + 1, j);
    }
  }

  /** What a rule does with one run: it takes it exactly when the run represents its period. */
  lemma SeenStep(cal: Calendar, p: Period, seen: set<string>, s: seq<Run>, i: nat)
    requires i < |s|
    requires SeenAfter(cal, p, seen, s[..i])
    ensures var b := cal(p.unit, s[i].createdAt);
            var takes := |seen| != p.count && b !in seen;
            takes == Represents(cal, p, s, i) && SeenAfter(cal, p, if takes then seen + {b} else seen, s[..i + 1])
  {
    BucketsGrow(cal, p.unit, s, i);
    SubsetSize(Buckets(cal, p.unit, s[..i]), Buckets(cal, p.unit, s[..i + 1]));
  }

  ghost function OneRuleKept(cal: Calendar, p: Period, s: seq<Run>, n: nat): set<nat>
    requires n <= |s|
  {
    set i: nat | i < n && Represents(cal, p, s, i)
  }

  lemma KeptNext(cal: Calendar, p: Period, s: seq<Run>, i: nat)
    requires i < |s|
    ensures var kept := OneRuleKept(cal, p, s, i);
            OneRuleKept(cal, p, s, i + 1) == (if Represents(cal, p, s, i) then kept + {i} else kept) && i !in kept
  {
  }

  lemma BucketsCount(cal: Calendar, u: PeriodUnit, s: seq<Run>, i: nat)
    requires i < |s|
    ensures var b := Buckets(cal, u, s[..i]);
            |Buckets(cal, u, s[..i + 1])| == if cal(u, s[i].createdAt) in b then |b| else |b| + 1
  {
    BucketsGrow(cal, u, s, i);
    var b := Buckets(cal, u, s[..i]);
    if cal(u, s[i].createdAt) in b { assert b + {cal(u, s[i].createdAt)} == b; }
  }

  lemma {:induction false} RuleKeepsCount(cal: Calendar, p: Period, s: seq<Run>, n: nat)
    requires p.count >= 0 && n <= |s|
    ensures var b := |Buckets(cal, p.unit, s[..n])|; |OneRuleKept(cal, p, s, n)| == if b < p.count then b else p.count
  {
    if n > 0 {
      var i := n - 1;
      RuleKeepsCount(cal, p, s, i);
      BucketsCount(cal, p.unit, s, i);
      KeptNext(cal, p, s, i);
    }
  }

  lemma {:induction false} NewestOfItsPeriod(cal: Calendar, p: Period, s: seq<Run>, j: nat) returns (k: nat)
    requires j < |s| && (p.count < 0 || |Buckets(cal, p.unit, s[..j])| < p.count)
    ensures k <= j && Represents(cal, p, s, k) && cal(p.unit, s[k].createdAt) == cal(p.unit, s[j].createdAt)
    decreases j
  {
    if cal(p.unit, s[j].createdAt) in Buckets(cal, p.unit, s[..j]) {
      var i :| 0 <= i < j && cal(p.unit, s[..j][i].createdAt) == cal(p.unit, s[j].createdAt);
      BucketsMonotone(cal, p.unit, s, i, j);
      k := NewestOfItsPeriod(cal, p, s, i);
    } else {
      k := j;
    }
  }

  ghost predicate SamePeriod(cal: Calendar, u: PeriodUnit, s: seq<Run>, i: nat, j: nat)
    requires i < |s| && j < |s|
  {
    cal(u, s[i].createdAt) == cal(u, s[j].createdAt)
  }

  /** The rule keeps a run of the period of run `j`, and not an older one. */
  ghost predicate KeepsItsPeriod(cal: Calendar, p: Period, s: seq<Run>, j: nat)
    requires j < |s|
  {
    exists k :: k in OneRuleKept(cal, p, s, |s|) && k <= j && SamePeriod(cal, p.unit, s, k, j)
  }

  /**
   What a period rule keeps: the newest run of each of the newest periods holding one, as many as it counts. A newer run
   than one kept is of another period, of which a run is kept too.
   */
  lemma RuleKeepsExactly(cal: Calendar, p: Period, s: seq<Run>, i: nat, j: nat)
    requires p.count >= 0
    ensures var b := |Buckets(cal, p.unit, s)|; |OneRuleKept(cal, p, s, |s|)| == if b < p.count then b else p.count
    ensures i in OneRuleKept(cal, p, s, |s|) && j < i ==>
              !SamePeriod(cal, p.unit, s, j, i) && KeepsItsPeriod(cal, p, s, j)
  {
    assert s[..|s|] == s;
    RuleKeepsCount(cal, p, s, |s|);
    if i in OneRuleKept(cal, p, s, |s|) && j < i {
      assert s[..i][j] == s[j];
      BucketsMonotone(cal, p.unit, s, j, i);
      var k := NewestOfItsPeriod(cal, p, s, j);
      assert k in OneRuleKept(cal, p, s, |s|);
    }
  }

  /** The positions one period rule keeps, found as the source finds them. */
  method KeepByPeriod(cal: Calendar, p: Period, newest: seq<Run>) returns (kept: set<nat>)
    ensures kept == OneRuleKept(cal, p, newest, |newest|)
  {
    kept := {};
    var seen: set<string> := {};
    for i := 0 to |newest|
      invariant SeenAfter(cal, p, seen, newest[..i])
      invariant kept == OneRuleKept(cal, p, newest, i)
    {
      if |seen| == p.count {
        forall j | i <= j < |newest| ensures !Represents(cal, p, newest, j) {
          BucketsMonotone(cal, p.unit, newest, i, j);
        }
        return;
      }
      SeenStep(cal, p, seen, newest, i);
      var bucket := cal(p.unit, newest[i].createdAt);
      if bucket in seen {
        continue;
      }
      seen := seen + {bucket};
      kept := kept + {i};
    }
  }

  /** The positions all the rules keep, found as the source finds them. */
  method Keep(r: Retention, cal: Calendar, newest: seq<Run>) returns (kept: set<nat>)
    ensures kept == KeptPositions(r, cal, newest)
  {
    kept := {};
    for i := 0 to if r.last < 0 then 0 else if r.last < |newest| then r.last else |newest|
      invariant forall j: nat :: j in kept <==> j < i
    {
      kept := kept + {i};
    }
    for k := 0 to |r.periods|
      invariant forall i: nat :: i in kept <==> i < |newest| && KeptUpTo(r, cal, k, newest, i)
    {
      var byPeriod := KeepByPeriod(cal, r.periods[k], newest);
      kept := kept + byPeriod;
      forall i: nat | i < |newest|
        ensures KeptUpTo(r, cal, k + 1, newest, i)
           <==> KeptUpTo(r, cal, k, newest, i) || Represents(cal, r.periods[k], newest, i)
      {
        NextRule(r, cal, k, newest, i);
      }
    }
  }

  /** The runs the retention does not keep, oldest first. */
  method Drop(r: Retention, cal: Calendar, runs: seq<Run>) returns (dropped: seq<Run>)
    ensures r.last == 0 && r.periods == [] ==> dropped == []
    ensures r.last != 0 || r.periods != [] ==>
              var newest := NewestFirst(runs);
              dropped == Left(newest, KeptPositions(r, cal, newest), 0)
    ensures multiset(dropped) + multiset(Survivors(r, cal, runs)) == multiset(runs)
    ensures forall j, k :: 0 <= j < k < |dropped| ==> dropped[j].createdAt <= dropped[k].createdAt
  {
    if r.IsZero() {
      NewestFirstIsStableSort(runs);
      return [];
    }
    var newest := NewestFirst(runs);
    var kept := Keep(r, cal, newest);
    dropped := [];
    for i := |newest| downto 0
      invariant dropped == Left(newest, kept, i)
    {
      if i !in kept {
        dropped := dropped + [newest[i]];
      }
    }
    DropPartitions(r, cal, runs, dropped);
  }

  lemma NextRule(r: Retention, cal: Calendar, k: nat, s: seq<Run>, i: nat)
    requires k < |r.periods| && i < |s|
    ensures KeptUpTo(r, cal, k + 1, s, i)
       <==> KeptUpTo(r, cal, k, s, i) || Represents(cal, r.periods[k], s, i)
  {
    var a, b := r.periods[..k], r.periods[..k + 1];
    assert b[k] == r.periods[k];
    if RepresentsSome(cal, a, s, i) {
      var j :| 0 <= j < |a| && Represents(cal, a[j], s, i);
      assert b[j] == a[j];
    }
    if RepresentsSome(cal, b, s, i) {
      var j :| 0 <= j < |b| && Represents(cal, b[j], s, i);
      assert j < k ==> a[j] == b[j];
    }
  }

  // ---------------------------------------------------------------- the selection as a machine

  /** How many latest runs are still to keep, and the periods each rule met. */
  datatype Cursor = Cursor(left: int, seen: seq<set<string>>)

  function Start(r: Retention): Cursor {
    Cursor(r.last, seq(|r.periods|, _ => {}))
  }

  predicate Takes(cal: Calendar, p: Period, seen: set<string>, run: Run) {
    |seen| != p.count && cal(p.unit, run.createdAt) !in seen
  }

  predicate Keeps(r: Retention, cal: Calendar, c: Cursor, run: Run)
    requires |c.seen| == |r.periods|
  {
    0 < c.left || exists k :: 0 <= k < |r.periods| && Takes(cal, r.periods[k], c.seen[k], run)
  }

  function Meet(cal: Calendar, p: Period, seen: set<string>, run: Run): set<string> {
    if Takes(cal, p, seen, run) then seen + {cal(p.unit, run.createdAt)} else seen
  }

  function Advance(r: Retention, cal: Calendar, c: Cursor, run: Run): (d: Cursor)
    requires |c.seen| == |r.periods|
    ensures |d.seen| == |r.periods|
    ensures !Keeps(r, cal, c, run) ==> d == c
  {
    Cursor(if 0 < c.left then c.left - 1 else c.left,
           seq(|r.periods|, k requires 0 <= k < |r.periods| => Meet(cal, r.periods[k], c.seen[k], run)))
  }

  /** The runs of `s` kept, newest first, from the cursor on. */
  function Survive(r: Retention, cal: Calendar, c: Cursor, s: seq<Run>): seq<Run>
    requires |c.seen| == |r.periods|
    decreases |s|
  {
    if s == [] then []
    else (if Keeps(r, cal, c, s[0]) then [s[0]] else []) + Survive(r, cal, Advance(r, cal, c, s[0]), s[1..])
  }

  /** The runs of an object a keep leaves, newest first. */
  function Survivors(r: Retention, cal: Calendar, runs: seq<Run>): seq<Run> {
    if r.IsZero() then NewestFirst(runs) else Survive(r, cal, Start(r), NewestFirst(runs))
  }

  ghost predicate CursorAfter(r: Retention, cal: Calendar, c: Cursor, s: seq<Run>, i: nat)
    requires i <= |s|
  {
    && |c.seen| == |r.periods|
    && c.left == (if i <= r.last then r.last - i else if r.last < 0 then r.last else 0)
    && forall k :: 0 <= k < |c.seen| ==> SeenAfter(cal, r.periods[k], c.seen[k], s[..i])
  }

  lemma CursorStep(r: Retention, cal: Calendar, c: Cursor, s: seq<Run>, i: nat)
    requires i < |s| && CursorAfter(r, cal, c, s, i)
    ensures Keeps(r, cal, c, s[i]) == KeptAt(r, cal, s, i)
    ensures CursorAfter(r, cal, Advance(r, cal, c, s[i]), s, i + 1)
  {
    forall k | 0 <= k < |r.periods|
      ensures Takes(cal, r.periods[k], c.seen[k], s[i]) == Represents(cal, r.periods[k], s, i)
      ensures SeenAfter(cal, r.periods[k], Meet(cal, r.periods[k], c.seen[k], s[i]), s[..i + 1])
    {
      SeenStep(cal, r.periods[k], c.seen[k], s, i);
    }
    assert r.periods[..|r.periods|] == r.periods;
  }

  lemma {:induction false} SurviveIsPickedFrom(r: Retention, cal: Calendar, c: Cursor, s: seq<Run>, i: nat)
    requires i <= |s| && CursorAfter(r, cal, c, s, i)
    ensures Survive(r, cal, c, s[i..]) == Picked(s, KeptPositions(r, cal, s), i)
    decreases |s| - i
  {
    if i < |s| {
      CursorStep(r, cal, c, s, i);
      SurviveIsPickedFrom(r, cal, Advance(r, cal, c, s[i]), s, i + 1);
      assert s[i..][1..] == s[i + 1..];
    }
  }

  /** The machine keeps exactly the runs the rules mean. */
  lemma SurvivorsMeaning(r: Retention, cal: Calendar, runs: seq<Run>)
    requires r.last != 0 || r.periods != []
    ensures var s := NewestFirst(runs); Survivors(r, cal, runs) == Picked(s, KeptPositions(r, cal, s), 0)
  {
    var s := NewestFirst(runs);
    assert s[..0] == [] && s[0..] == s;
    SurviveIsPickedFrom(r, cal, Start(r), s, 0);
  }

  lemma CountsOfEnds<T>(s: seq<T>, x: T)
    ensures multiset(s + [x]) == multiset(s) + multiset{x} == multiset([x] + s)
  {
  }

  lemma Tail<T>(s: seq<T>, i: nat)
    requires i < |s|
    ensures s[i..] == [s[i]] + s[i + 1..]
  {
  }

  /** A retention with no rule keeps every run. */
  lemma NoRuleKeepsAll(cal: Calendar, runs: seq<Run>)
    ensures Survivors(Retention(0, []), cal, runs) == NewestFirst(runs)
  {
  }

  lemma {:induction false} LeftAndPicked(s: seq<Run>, kept: set<nat>, i: nat)
    requires i <= |s|
    ensures multiset(Left(s, kept, i)) + multiset(Picked(s, kept, i)) == multiset(s[i..])
    decreases |s| - i
  {
    if i == |s| {
    } else {
      var left, picked := Left(s, kept, i + 1), Picked(s, kept, i + 1);
      LeftAndPicked(s, kept, i + 1);
      Tail(s, i);
      CountsOfEnds(s[i + 1..], s[i]);
      if i in kept {
        CountsOfEnds(picked, s[i]);
        assert Left(s, kept, i) == left + [] == left;
      } else {
        CountsOfEnds(left, s[i]);
        assert Picked(s, kept, i) == [] + picked == picked;
      }
    }
  }

  lemma {:induction false} LeftIsOldestFirst(s: seq<Run>, kept: set<nat>, i: nat)
    requires i <= |s| && Sorted(s)
    ensures forall x :: x in Left(s, kept, i) ==> x in s[i..]
    ensures forall j, k :: 0 <= j < k < |Left(s, kept, i)| ==>
              Left(s, kept, i)[j].createdAt <= Left(s, kept, i)[k].createdAt
    decreases |s| - i
  {
    if i < |s| {
      LeftIsOldestFirst(s, kept, i + 1);
      var l := Left(s, kept, i + 1);
      forall j | 0 <= j < |l| ensures l[j].createdAt <= s[i].createdAt {
        assert l[j] in l;
      }
    }
  }

  /** What Drop returns and what survives partition the runs. */
  lemma DropPartitions(r: Retention, cal: Calendar, runs: seq<Run>, dropped: seq<Run>)
    requires r.last != 0 || r.periods != []
    requires var s := NewestFirst(runs); dropped == Left(s, KeptPositions(r, cal, s), 0)
    ensures multiset(dropped) + multiset(Survivors(r, cal, runs)) == multiset(runs)
    ensures forall j, k :: 0 <= j < k < |dropped| ==> dropped[j].createdAt <= dropped[k].createdAt
  {
    var s := NewestFirst(runs);
    NewestFirstIsStableSort(runs);
    LeftAndPicked(s, KeptPositions(r, cal, s), 0);
    LeftIsOldestFirst(s, KeptPositions(r, cal, s), 0);
    SurvivorsMeaning(r, cal, runs);
    assert s[0..] == s;
  }

  // ---------------------------------------------------------------- how many are kept

  /** What the rules may still keep. */
  function Room(periods: seq<Period>, seen: seq<set<string>>): int
    requires |periods| == |seen|
  {
    if periods == [] then 0 else periods[0].count - |seen[0]| + Room(periods[1..], seen[1..])
  }

  ghost predicate WithinCounts(r: Retention, c: Cursor) {
    && |c.seen| == |r.periods|
    && forall k :: 0 <= k < |r.periods| ==> r.periods[k].count < 0 || |c.seen[k]| <= r.periods[k].count
  }

  lemma AdvanceWithinCounts(r: Retention, cal: Calendar, c: Cursor, run: Run)
    requires WithinCounts(r, c)
    ensures WithinCounts(r, Advance(r, cal, c, run))
  {
  }

  lemma {:induction false} RoomShrinks(cal: Calendar, periods: seq<Period>, seen: seq<set<string>>,
                                       after: seq<set<string>>, run: Run)
    requires |periods| == |seen| == |after|
    requires forall k :: 0 <= k < |periods| ==> after[k] == Meet(cal, periods[k], seen[k], run)
    ensures Room(periods, after) <= Room(periods, seen)
    ensures (exists k :: 0 <= k < |periods| && Takes(cal, periods[k], seen[k], run)) ==>
              Room(periods, after) < Room(periods, seen)
  {
    if periods == [] {
    } else {
      RoomShrinks(cal, periods[1..], seen[1..], after[1..], run);
      if exists k :: 0 <= k < |periods| && Takes(cal, periods[k], seen[k], run) {
        var k :| 0 <= k < |periods| && Takes(cal, periods[k], seen[k], run);
        assert k > 0 ==> Takes(cal, periods[1..][k - 1], seen[1..][k - 1], run);
      }
    }
  }

  lemma {:induction false} RoomIsPositive(periods: seq<Period>, seen: seq<set<string>>)
    requires |periods| == |seen|
    requires forall k :: 0 <= k < |periods| ==> |seen[k]| <= periods[k].count
    ensures Room(periods, seen) >= 0
  {
    if periods == [] {
    } else {
      RoomIsPositive(periods[1..], seen[1..]);
    }
  }

  /** A run kept uses up one of the places the rules have. */
  lemma {:induction false} SurviveBound(r: Retention, cal: Calendar, c: Cursor, s: seq<Run>)
    requires WithinCounts(r, c) && c.left >= 0
    requires forall k :: 0 <= k < |r.periods| ==> r.periods[k].count >= 0
    ensures |Survive(r, cal, c, s)| <= c.left + Room(r.periods, c.seen)
    decreases |s|
  {
    if s == [] {
      RoomIsPositive(r.periods, c.seen);
    } else {
      var d := Advance(r, cal, c, s[0]);
      AdvanceWithinCounts(r, cal, c, s[0]);
      RoomShrinks(cal, r.periods, c.seen, d.seen, s[0]);
      SurviveBound(r, cal, d, s[1..]);
    }
  }

  ghost function CountSum(periods: seq<Period>): int {
    if periods == [] then 0 else periods[0].count + CountSum(periods[1..])
  }

  lemma {:induction false} RoomAtStart(periods: seq<Period>, seen: seq<set<string>>)
    requires |periods| == |seen| && forall k :: 0 <= k < |seen| ==> seen[k] == {}
    ensures Room(periods, seen) == CountSum(periods)
  {
    if periods == [] {
    } else {
      RoomAtStart(periods[1..], seen[1..]);
    }
  }

  /** A parsed, non-zero retention keeps at most `last` plus the counts, and always the newest run. */
  lemma ParsedKeeps(r: Retention, cal: Calendar, runs: seq<Run>)
    requires r.Parsed() && (r.last != 0 || r.periods != [])
    ensures |Survivors(r, cal, runs)| <= r.last + CountSum(r.periods)
    ensures runs != [] ==> Survivors(r, cal, runs) != [] && Survivors(r, cal, runs)[0] == NewestFirst(runs)[0]
  {
    var c := Start(r);
    SurviveBound(r, cal, c, NewestFirst(runs));
    RoomAtStart(r.periods, c.seen);
    if runs != [] {
      NewestFirstIsStableSort(runs);
      var s := NewestFirst(runs);
      assert |s| == |multiset(s)| == |multiset(runs)|;
      if r.last == 0 { assert Takes(cal, r.periods[0], c.seen[0], s[0]); }
    }
  }

  // ---------------------------------------------------------------- pruning as the runs come

  /** `d` has no more room than `c`: whatever `d` keeps, `c` keeps. */
  ghost predicate Ahead(r: Retention, c: Cursor, d: Cursor) {
    && WithinCounts(r, c) && WithinCounts(r, d)
    && (d.left <= c.left || d.left <= 0)
    && forall k :: 0 <= k < |r.periods| ==> |d.seen[k]| == r.periods[k].count || c.seen[k] <= d.seen[k]
  }

  lemma AheadTakes(cal: Calendar, p: Period, a: set<string>, b: set<string>, run: Run)
    requires p.count < 0 || (|a| <= p.count && |b| <= p.count)
    requires |b| == p.count || a <= b
    ensures Takes(cal, p, b, run) ==> Takes(cal, p, a, run)
    ensures |Meet(cal, p, b, run)| == p.count || Meet(cal, p, a, run) <= Meet(cal, p, b, run)
  {
    if a <= b { SubsetSize(a, b); }
  }

  lemma AheadStep(r: Retention, cal: Calendar, c: Cursor, d: Cursor, run: Run)
    requires Ahead(r, c, d)
    ensures Keeps(r, cal, d, run) ==> Keeps(r, cal, c, run)
    ensures Ahead(r, Advance(r, cal, c, run), Advance(r, cal, d, run))
  {
    AdvanceWithinCounts(r, cal, c, run);
    AdvanceWithinCounts(r, cal, d, run);
    forall k | 0 <= k < |r.periods|
      ensures Takes(cal, r.periods[k], d.seen[k], run) ==> Takes(cal, r.periods[k], c.seen[k], run)
      ensures var x, y := Meet(cal, r.periods[k], c.seen[k], run), Meet(cal, r.periods[k], d.seen[k], run);
              |y| == r.periods[k].count || x <= y
    {
      AheadTakes(cal, r.periods[k], c.seen[k], d.seen[k], run);
    }
  }

  /** Runs dropped with more room would be dropped with less: leaving them out first changes nothing. */
  lemma {:induction false} SurviveAbsorbs(r: Retention, cal: Calendar, c: Cursor, d: Cursor, s: seq<Run>)
    requires Ahead(r, c, d)
    ensures Survive(r, cal, d, Survive(r, cal, c, s)) == Survive(r, cal, d, s)
    decreases |s|
  {
    if s == [] {
    } else {
      var c', d' := Advance(r, cal, c, s[0]), Advance(r, cal, d, s[0]);
      AheadStep(r, cal, c, d, s[0]);
      SurviveAbsorbs(r, cal, c', d', s[1..]);
      if Keeps(r, cal, c, s[0]) {
        assert Survive(r, cal, c, s)[1..] == Survive(r, cal, c', s[1..]);
      } else {
        assert Survive(r, cal, c, s) == Survive(r, cal, c', s[1..]);
      }
    }
  }

  lemma {:induction false} SurviveIsSorted(r: Retention, cal: Calendar, c: Cursor, s: seq<Run>)
    requires |c.seen| == |r.periods| && Sorted(s)
    ensures Sorted(Survive(r, cal, c, s))
    ensures forall x :: x in Survive(r, cal, c, s) ==> x in s
    decreases |s|
  {
    if s == [] {
    } else {
      var rest := Survive(r, cal, Advance(r, cal, c, s[0]), s[1..]);
      SurviveIsSorted(r, cal, Advance(r, cal, c, s[0]), s[1..]);
      assert forall i :: 0 <= i < |rest| ==> rest[i] in rest;
    }
  }

  lemma SurviveCons(r: Retention, cal: Calendar, c: Cursor, x: Run, s: seq<Run>)
    requires |c.seen| == |r.periods|
    ensures Survive(r, cal, c, [x] + s)
         == (if Keeps(r, cal, c, x) then [x] else []) + Survive(r, cal, Advance(r, cal, c, x), s)
  {
    assert ([x] + s)[1..] == s;
  }

  /** A run newer than all the others. */
  lemma InsertAbsorbsNewest(r: Retention, cal: Calendar, c: Cursor, s: seq<Run>, x: Run)
    requires WithinCounts(r, c) && Sorted(s) && s != [] && s[0].createdAt < x.createdAt
    ensures Survive(r, cal, c, Insert(Survive(r, cal, c, s), x)) == Survive(r, cal, c, Insert(s, x))
  {
    var kept := Survive(r, cal, c, s);
    SurviveIsSorted(r, cal, c, s);
    assert kept == [] || kept[0] in kept;
    SurviveCons(r, cal, c, x, kept);
    SurviveCons(r, cal, c, x, s);
    AdvanceWithinCounts(r, cal, c, x);
    SurviveAbsorbs(r, cal, c, Advance(r, cal, c, x), s);
  }

  /** A run coming, at any time, finds in what survived all it would have found in the whole history. */
  lemma {:induction false} InsertAbsorbs(r: Retention, cal: Calendar, c: Cursor, s: seq<Run>, x: Run)
    requires WithinCounts(r, c) && Sorted(s)
    ensures Survive(r, cal, c, Insert(Survive(r, cal, c, s), x)) == Survive(r, cal, c, Insert(s, x))
    decreases |s|
  {
    if s == [] {
    } else if s[0].createdAt < x.createdAt {
      InsertAbsorbsNewest(r, cal, c, s, x);
    } else {
      var d := Advance(r, cal, c, s[0]);
      var rest := Survive(r, cal, d, s[1..]);
      AdvanceWithinCounts(r, cal, c, s[0]);
      InsertAbsorbs(r, cal, d, s[1..], x);
      SurviveCons(r, cal, c, s[0], Insert(s[1..], x));
      if Keeps(r, cal, c, s[0]) {
        InsertBehind(s[0], rest, x);
        SurviveCons(r, cal, c, s[0], Insert(rest, x));
      } else {
        assert Survive(r, cal, c, s) == rest && d == c;
      }
    }
  }

  lemma InsertBehind(h: Run, s: seq<Run>, x: Run)
    requires h.createdAt >= x.createdAt
    ensures Insert([h] + s, x) == [h] + Insert(s, x)
  {
    assert ([h] + s)[1..] == s;
  }

  lemma NewestFirstAppend(runs: seq<Run>, x: Run)
    ensures NewestFirst(runs + [x]) == Insert(NewestFirst(runs), x)
  {
    assert (runs + [x])[..|runs|] == runs;
  }

  lemma {:induction false} NewestFirstOfSorted(s: seq<Run>)
    requires Sorted(s)
    ensures NewestFirst(s) == s
  {
    NewestFirstIsStableSort(s);
    StableSortIsUnique(NewestFirst(s), s);
  }

  lemma OneMore(r: Retention, cal: Calendar, a: seq<Run>, x: Run)
    requires !r.IsZero()
    ensures Survivors(r, cal, a + [x]) == Survive(r, cal, Start(r), Insert(Survivors(r, cal, a), x))
  {
    NewestFirstAppend(a, x);
    NewestFirstIsStableSort(a);
    InsertAbsorbs(r, cal, Start(r), NewestFirst(a), x);
  }

  lemma MoveOne<T>(a: seq<T>, more: seq<T>)
    requires more != []
    ensures a + more == (a + [more[0]]) + more[1..]
  {
  }

  /** Two histories with the same survivors still have the same survivors after any further runs. */
  lemma {:induction false} SameSurvivorsAfter(r: Retention, cal: Calendar, a: seq<Run>, b: seq<Run>, more: seq<Run>)
    requires !r.IsZero()
    requires Survivors(r, cal, a) == Survivors(r, cal, b)
    ensures Survivors(r, cal, a + more) == Survivors(r, cal, b + more)
    decreases |more|
  {
    if more == [] {
      assert a + more == a && b + more == b;
    } else {
      MoveOne(a, more);
      MoveOne(b, more);
      assert Survivors(r, cal, a + [more[0]]) == Survivors(r, cal, b + [more[0]]) by {
        OneMore(r, cal, a, more[0]);
        OneMore(r, cal, b, more[0]);
      }
      SameSurvivorsAfter(r, cal, a + [more[0]], b + [more[0]], more[1..]);
    }
  }

  /** What survived survives again: a second Drop drops nothing. */
  lemma Idempotent(r: Retention, cal: Calendar, runs: seq<Run>)
    ensures Survivors(r, cal, Survivors(r, cal, runs)) == Survivors(r, cal, runs)
  {
    NewestFirstIsStableSort(runs);
    var s := NewestFirst(runs);
    if r.IsZero() {
      NewestFirstOfSorted(s);
    } else {
      SurviveIsSorted(r, cal, Start(r), s);
      NewestFirstOfSorted(Survivors(r, cal, runs));
      SurviveAbsorbs(r, cal, Start(r), Start(r), s);
    }
  }

  lemma NothingAdded<T>(a: seq<T>, b: seq<T>)
    requires multiset(a) + multiset(b) == multiset(b)
    ensures a == []
  {
    assert |multiset(a) + multiset(b)| == |a| + |b|;
  }

  lemma DropAgainDropsNothing(r: Retention, cal: Calendar, runs: seq<Run>)
    requires r.last != 0 || r.periods != []
    ensures var s := NewestFirst(Survivors(r, cal, runs)); Left(s, KeptPositions(r, cal, s), 0) == []
  {
    var kept := Survivors(r, cal, runs);
    var s := NewestFirst(kept);
    var dropped := Left(s, KeptPositions(r, cal, s), 0);
    DropPartitions(r, cal, kept, dropped);
    Idempotent(r, cal, runs);
    NothingAdded(dropped, kept);
  }

  /** Pruning before more runs come, whatever their times, leaves what pruning once after them leaves. */
  lemma PathIndependence(r: Retention, cal: Calendar, before: seq<Run>, more: seq<Run>)
    ensures Survivors(r, cal, Survivors(r, cal, before) + more) == Survivors(r, cal, before + more)
  {
    if r.IsZero() {
      SortingFirst(before, more);
    } else {
      Idempotent(r, cal, before);
      SameSurvivorsAfter(r, cal, Survivors(r, cal, before), before, more);
    }
  }

  lemma SortingFirst(a: seq<Run>, b: seq<Run>)
    ensures NewestFirst(NewestFirst(a) + b) == NewestFirst(a + b)
  {
    var x, y := NewestFirst(a) + b, a + b;
    NewestFirstIsStableSort(a);
    NewestFirstIsStableSort(x);
    NewestFirstIsStableSort(y);
    forall t ensures At(NewestFirst(x), t) == At(NewestFirst(y), t) {
      AtConcat(NewestFirst(a), b, t);
      AtConcat(a, b, t);
    }
    StableSortIsUnique(NewestFirst(x), NewestFirst(y));
  }

  /** The store after each batch of runs is written and the retention applied. */
  ghost function PruneEach(r: Retention, cal: Calendar, batches: seq<seq<Run>>): seq<Run> {
    if batches == [] then []
    else Survivors(r, cal, PruneEach(r, cal, batches[..|batches| - 1]) + batches[|batches| - 1])
  }

  ghost function Flatten(batches: seq<seq<Run>>): seq<Run> {
    if batches == [] then [] else Flatten(batches[..|batches| - 1]) + batches[|batches| - 1]
  }

  /** Pruning after every batch, as after every run, leaves what one Drop on the whole history leaves. */
  lemma {:induction false} IncrementalIsOneShot(r: Retention, cal: Calendar, batches: seq<seq<Run>>)
    ensures PruneEach(r, cal, batches) == Survivors(r, cal, Flatten(batches))
  {
    if batches == [] {
    } else {
      var n := |batches| - 1;
      IncrementalIsOneShot(r, cal, batches[..n]);
      PathIndependence(r, cal, Flatten(batches[..n]), batches[n]);
    }
  }

  // ---------------------------------------------------------------- the order a store lists its runs in

  lemma {:induction false} AtCounts(s: seq<Run>, t: Time, x: Run)
    ensures multiset(At(s, t))[x] == if x.createdAt == t then multiset(s)[x] else 0
  {
    if s == [] {
    } else {
      AtCounts(s[1..], t, x);
      assert s == [s[0]] + s[1..];
    }
  }

  lemma {:induction false} AtOnce(s: seq<Run>, t: Time)
    requires forall i, j :: 0 <= i < j < |s| ==> s[i].createdAt != s[j].createdAt
    ensures |At(s, t)| <= 1
  {
    if s == [] {
    } else {
      AtOnce(s[1..], t);
      if s[0].createdAt == t { AtNone(s[1..], t); }
    }
  }

  /** Runs created at different times are kept the same whatever order the store lists them in. */
  lemma ListingOrderIsIrrelevant(r: Retention, cal: Calendar, a: seq<Run>, b: seq<Run>)
    requires multiset(a) == multiset(b)
    requires forall i, j :: 0 <= i < j < |a| ==> a[i].createdAt != a[j].createdAt
    ensures Survivors(r, cal, a) == Survivors(r, cal, b)
  {
    NewestFirstIsStableSort(a);
    NewestFirstIsStableSort(b);
    forall t ensures At(NewestFirst(a), t) == At(NewestFirst(b), t) {
      var x, y := At(a, t), At(b, t);
      forall e ensures multiset(x)[e] == multiset(y)[e] {
        AtCounts(a, t, e);
        AtCounts(b, t, e);
      }
      AtOnce(a, t);
      SameSingle(x, y);
    }
    StableSortIsUnique(NewestFirst(a), NewestFirst(b));
  }

  lemma SameSingle<T>(x: seq<T>, y: seq<T>)
    requires multiset(x) == multiset(y) && |x| <= 1
    ensures x == y
  {
    assert |x| == |multiset(x)| && |y| == |multiset(y)|;
    if |x| == 1 { assert x[0] in multiset(x) && y[0] in multiset(y); }
  }
}
