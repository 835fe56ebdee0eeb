/**
 The figures of the runs of the objects of a store (core/backup/stats.go): counted, merged, summed.

 `Tally` is what is counted, `Plus` how two counts join. Times are compared with the zero time, which
 stands for none.
 */
module Stats {
  import opened Text
  import opened Names
  import opened Runs
  import opened Folds

  /** What is counted of runs. */
  datatype Tally = Tally(runs: nat, incomplete: nat, protected: nat, logical: int, stored: int, first: Time, last: Time)

  const NOTHING := Tally(0, 0, 0, 0, 0, ZERO_TIME, ZERO_TIME)

  /** The earlier of two times, none being no time at all. */
  function Earlier(a: int, b: int): (r: int)
    ensures r == a || r == b
  {
    if b != ZERO_TIME && (a == ZERO_TIME || b < a) then b else a
  }

  function Later(a: int, b: int): (r: int)
    ensures r == a || r == b
  {
    if b > a then b else a
  }

  /** How two counts join. */
  function Plus(a: Tally, b: Tally): Tally {
    Tally(a.runs + b.runs, a.incomplete + b.incomplete, a.protected + b.protected, a.logical + b.logical,
          a.stored + b.stored, Earlier(a.first, b.first), Later(a.last, b.last))
  }

  lemma PlusLaws(a: Tally, b: Tally, c: Tally)
    ensures Plus(a, b) == Plus(b, a)
    ensures Plus(Plus(a, b), c) == Plus(a, Plus(b, c))
    ensures Plus(NOTHING, a) == a && Plus(a, NOTHING) == a
  {
  }

  // ---------------------------------------------------------------- counting the runs of an object

  /** One run more. The first time is read as the source reads it: none so far, or an earlier one. */
  ghost function CountRun(t: Tally, run: Run): Tally {
    if !run.Completed() then t.(incomplete := t.incomplete + 1)
    else
      Tally(t.runs + 1, t.incomplete, t.protected + (if run.protected then 1 else 0),
            t.logical + run.logicalBytes, t.stored + run.storedBytes,
            if t.first == ZERO_TIME || run.createdAt < t.first then run.createdAt else t.first,
            Later(t.last, run.createdAt))
  }

  ghost function CountFrom(t: Tally, runs: seq<Run>): Tally
    decreases |runs|
  {
    if runs == [] then t else CountFrom(CountRun(t, runs[0]), runs[1..])
  }

  ghost function Count(runs: seq<Run>): Tally {
    CountFrom(NOTHING, runs)
  }

  /** The nodes that wrote a completed run. */
  ghost function Writers(runs: seq<Run>): set<string> {
    set i | 0 <= i < |runs| && runs[i].completedAt != ZERO_TIME && runs[i].node != "" :: runs[i].node
  }

  datatype ObjectStats = ObjectStats(
    clusterID: string,
    clusterName: string,
    objectID: string,
    path: string,
    tally: Tally,
    nodes: seq<string>,
    updatedAt: Time)
  {
    function Key(): string {
      clusterID + "/" + objectID
    }
  }

  lemma WritersNext(runs: seq<Run>, i: nat)
    requires i < |runs|
    ensures Writers(runs[..i + 1]) ==
            Writers(runs[..i]) + (if runs[i].Completed() && runs[i].node != "" then {runs[i].node} else {})
  {
    var a, b := runs[..i], runs[..i + 1];
    assert forall k :: 0 <= k < i ==> a[k] == b[k];
    assert b[i] == runs[i];
    forall x | x in Writers(a) ensures x in Writers(b) {
      var k :| 0 <= k < |a| && a[k].Completed() && a[k].node != "" && x == a[k].node;
      assert b[k] == a[k];
    }
    if runs[i].Completed() && runs[i].node != "" { assert b[i].node in Writers(b); }
  }

  lemma CollectsMore(nodes: seq<string>, n: string)
    requires Distinct(nodes)
    ensures n in nodes ==> Elements(nodes) == Elements(nodes) + {n}
    ensures n !in nodes ==> Distinct(nodes + [n]) && Elements(nodes + [n]) == Elements(nodes) + {n}
  {
  }

  lemma DropNext<T>(s: seq<T>, i: nat)
    requires i < |s|
    ensures s[i..] != [] && s[i..][0] == s[i] && s[i..][1..] == s[i + 1..]
  {
  }

  method NewObjectStats(clusterID: string, clusterName: string, objectID: string, path: string, runs: seq<Run>,
                        now: Time)
    returns (o: ObjectStats)
    ensures o.tally == Count(runs) && Ordered(o.nodes) && Elements(o.nodes) == Writers(runs)
    ensures o == ObjectStats(clusterID, clusterName, objectID, path, o.tally, o.nodes, now)
  {
    var t := NOTHING;
    var nodes: seq<string> := [];
    for i := 0 to |runs|
      invariant CountFrom(t, runs[i..]) == Count(runs)
      invariant Distinct(nodes) && Elements(nodes) == Writers(runs[..i])
    {
      var run := runs[i];
      ghost var before := t;
      DropNext(runs, i);
      WritersNext(runs, i);
      if !run.Completed() {
        t := t.(incomplete := t.incomplete + 1);
        continue;
      }
      t := t.(runs := t.runs + 1);
      if run.protected {
        t := t.(protected := t.protected + 1);
      }
      CollectsMore(nodes, run.node);
      if run.node != "" && run.node !in nodes {
        nodes := nodes + [run.node];
      }
      if t.first == ZERO_TIME || run.createdAt < t.first {
        t := t.(first := run.createdAt);
      }
      if run.createdAt > t.last {
        t := t.(last := run.createdAt);
      }
      t := t.(logical := t.logical + run.logicalBytes, stored := t.stored + run.storedBytes);
      assert t == CountRun(before, run);
    }
    assert runs[..|runs|] == runs;
    SortOrders(nodes);
    o := ObjectStats(clusterID, clusterName, objectID, path, t, Sort(nodes), now);
  }

  /** The runs completed. */
  ghost function Done(runs: seq<Run>): seq<Run> {
    if runs == [] then [] else (if runs[0].completedAt != ZERO_TIME then [runs[0]] else []) + Done(runs[1..])
  }

  ghost function Marked(runs: seq<Run>): nat {
    if runs == [] then 0 else (if runs[0].protected then 1 else 0) + Marked(runs[1..])
  }

  ghost function LogicalSum(runs: seq<Run>): int {
    if runs == [] then 0 else runs[0].logicalBytes + LogicalSum(runs[1..])
  }

  ghost function StoredSum(runs: seq<Run>): int {
    if runs == [] then 0 else runs[0].storedBytes + StoredSum(runs[1..])
  }

  /** Every run completed says when it was created. */
  ghost predicate Dated(runs: seq<Run>) {
    forall i :: 0 <= i < |runs| && runs[i].Completed() ==> runs[i].createdAt != ZERO_TIME
  }

  /** Counting from some figures adds the count to them, when the runs are dated. */
  lemma {:induction false} CountAdds(t: Tally, runs: seq<Run>)
    requires Dated(runs)
    ensures CountFrom(t, runs) == Plus(t, Count(runs))
    decreases |runs|
  {
    if runs == [] {
      PlusLaws(t, NOTHING, NOTHING);
    } else {
      var one, rest := CountRun(NOTHING, runs[0]), runs[1..];
      assert CountRun(t, runs[0]) == Plus(t, one);
      CountAdds(Plus(t, one), rest);
      CountAdds(one, rest);
      PlusLaws(t, one, Count(rest));
    }
  }

  lemma {:induction false} CountConcat(t: Tally, a: seq<Run>, b: seq<Run>)
    ensures CountFrom(t, a + b) == CountFrom(CountFrom(t, a), b)
    decreases |a|
  {
    if a == [] {
      assert a + b == b;
    } else {
      assert (a + b)[1..] == a[1..] + b;
      CountConcat(CountRun(t, a[0]), a[1..], b);
    }
  }

  /** Counting is counting: the completed runs, the others, the protected ones and the bytes. */
  lemma {:induction false} CountMeansSums(t: Tally, runs: seq<Run>)
    ensures var c, done := CountFrom(t, runs), Done(runs);
            && c.runs == t.runs + |done|
            && c.incomplete == t.incomplete + |runs| - |done|
            && c.protected == t.protected + Marked(done)
            && c.logical == t.logical + LogicalSum(done)
            && c.stored == t.stored + StoredSum(done)
    decreases |runs|
  {
    if runs == [] {
    } else {
      CountMeansSums(CountRun(t, runs[0]), runs[1..]);
      if runs[0].Completed() {
        assert Done(runs) == [runs[0]] + Done(runs[1..]) && Done(runs)[1..] == Done(runs[1..]);
      } else {
        assert Done(runs) == Done(runs[1..]);
      }
    }
  }

  /** The last time is the latest, whatever the runs. */
  lemma {:induction false} CountMeansLast(t: Tally, runs: seq<Run>)
    ensures var c := CountFrom(t, runs);
            && t.last <= c.last
            && (forall r :: r in runs && r.Completed() ==> r.createdAt <= c.last)
            && (c.last == t.last || exists r :: r in runs && r.Completed() && r.createdAt == c.last)
    decreases |runs|
  {
    if runs == [] {
    } else {
      CountMeansLast(CountRun(t, runs[0]), runs[1..]);
      assert runs == [runs[0]] + runs[1..];
    }
  }

  /** The first time is the earliest, when the runs are dated. */
  lemma {:induction false} CountMeansFirst(t: Tally, runs: seq<Run>)
    requires Dated(runs)
    ensures var c := CountFrom(t, runs);
            && (t.first != ZERO_TIME ==> c.first != ZERO_TIME && c.first <= t.first)
            && (forall r :: r in runs && r.Completed() ==> c.first != ZERO_TIME && c.first <= r.createdAt)
            && (c.first == t.first || exists r :: r in runs && r.Completed() && r.createdAt == c.first)
    decreases |runs|
  {
    if runs == [] {
    } else {
      CountMeansFirst(CountRun(t, runs[0]), runs[1..]);
      assert runs == [runs[0]] + runs[1..];
    }
  }

  /** The first time of runs with one not dated forgets the ones counted before it. */
  lemma {:induction false} FirstForgets(t: Tally, u: Tally, runs: seq<Run>)
    requires !Dated(runs)
    ensures CountFrom(t, runs).first == CountFrom(u, runs).first
    decreases |runs|
  {
    var a, b := CountRun(t, runs[0]), CountRun(u, runs[0]);
    if Dated(runs[1..]) {
      CountAdds(a, runs[1..]);
      CountAdds(b, runs[1..]);
    } else {
      FirstForgets(a, b, runs[1..]);
    }
  }

  /** Joining the counts of two parts gives the first time of the whole exactly under this condition. */
  lemma FirstJoinsExactly(a: seq<Run>, b: seq<Run>)
    ensures Plus(Count(a), Count(b)).first == Count(a + b).first
       <==> Dated(b) || Count(a).first == ZERO_TIME || (ZERO_TIME < Count(b).first <= Count(a).first)
  {
    CountConcat(NOTHING, a, b);
    if Dated(b) { CountAdds(Count(a), b); } else { FirstForgets(Count(a), NOTHING, b); }
  }

  /** All but the first time joins, whatever the runs; all of it when they are dated. */
  lemma {:induction false} CountJoins(a: seq<Run>, b: seq<Run>)
    ensures Count(a + b).(first := ZERO_TIME) == Plus(Count(a), Count(b)).(first := ZERO_TIME)
    ensures Dated(b) ==> Count(a + b) == Plus(Count(a), Count(b))
  {
    CountConcat(NOTHING, a, b);
    CountMeansSums(NOTHING, b);
    CountMeansSums(Count(a), b);
    LastJoins(Count(a), b);
    if Dated(b) { CountAdds(Count(a), b); }
  }

  lemma {:induction false} LastJoins(t: Tally, runs: seq<Run>)
    ensures CountFrom(t, runs).last == Later(t.last, Count(runs).last)
    decreases |runs|
  {
    if runs == [] {
    } else {
      LastJoins(CountRun(t, runs[0]), runs[1..]);
      LastJoins(CountRun(NOTHING, runs[0]), runs[1..]);
    }
  }

  // ---------------------------------------------------------------- skipping objects by their times

  /** An object is never skipped for a completed run the filter selects. */
  ghost predicate NeverSkips(runs: seq<Run>) {
    forall f: RunFilter, i :: 0 <= i < |runs| && runs[i].Completed() && f.Match(runs[i]) ==>
        f.MayHold(Count(runs).first, Count(runs).last)
  }

  /** The last completed run of the list does not say when it was created. */
  ghost predicate EndsUndated(runs: seq<Run>) {
    Done(runs) != [] && Done(runs)[|Done(runs)| - 1].createdAt == ZERO_TIME
  }

  /** The first time is none exactly when the last completed run is not dated, or there is none. */
  lemma {:induction false} FirstIsNone(t: Tally, runs: seq<Run>)
    ensures Done(runs) == [] ==> CountFrom(t, runs).first == t.first
    ensures Done(runs) != [] ==> (CountFrom(t, runs).first == ZERO_TIME <==> EndsUndated(runs))
    decreases |runs|
  {
    if runs == [] {
    } else {
      FirstIsNone(CountRun(t, runs[0]), runs[1..]);
      var done := Done(runs[1..]);
      if runs[0].Completed() && done != [] { assert Done(runs)[|Done(runs)| - 1] == done[|done| - 1]; }
    }
  }

  /** MayHold on the times of an object skips no selected run exactly when they are dated, or the last is not. */
  lemma NeverSkipsExactly(runs: seq<Run>)
    ensures NeverSkips(runs) <==> Dated(runs) || EndsUndated(runs)
  {
    FirstIsNone(NOTHING, runs);
    if Done(runs) == [] { DoneOfAll(runs); }
    var c := Count(runs);
    CountMeansLast(NOTHING, runs);
    if Dated(runs) {
      CountMeansFirst(NOTHING, runs);
      forall f: RunFilter, i | 0 <= i < |runs| && runs[i].Completed() &&
          f.Match(runs[i]) ensures f.MayHold(c.first, c.last) {
        assert runs[i] in runs;
      }
    } else if c.first != ZERO_TIME {
      var i :| 0 <= i < |runs| && runs[i].Completed() && runs[i].createdAt == ZERO_TIME;
      var f := RunFilter("", "", "", false, ZERO_TIME, c.first);
      assert f.Match(runs[i]);
      FirstIsNotPastLast(NOTHING, runs);
      assert !f.MayHold(c.first, c.last);
    }
  }

  lemma {:induction false} DoneOfAll(runs: seq<Run>)
    requires Done(runs) == []
    ensures Dated(runs)
  {
    if runs == [] {
    } else {
      DoneOfAll(runs[1..]);
      forall i | 0 <= i < |runs| && runs[i].Completed() ensures runs[i].createdAt != ZERO_TIME {
        assert i > 0 ==> runs[1..][i - 1] == runs[i];
      }
    }
  }

  lemma {:induction false} FirstIsNotPastLast(t: Tally, runs: seq<Run>)
    requires t.first <= t.last
    ensures CountFrom(t, runs).first <= CountFrom(t, runs).last
    decreases |runs|
  {
    if runs == [] {
    } else {
      FirstIsNotPastLast(CountRun(t, runs[0]), runs[1..]);
    }
  }

  // ---------------------------------------------------------------- merging the stats of an object

  /** The names of `nodes`, then the ones of `more` not among them. */
  function AddNames(nodes: seq<string>, more: seq<string>): seq<string>
    decreases |more|
  {
    if more == [] then nodes
    else AddNames(if more[0] in nodes then nodes else nodes + [more[0]], more[1..])
  }

  /** The stats `m` of an object with the ones `o` recorded elsewhere. */
  function MergeTwo(m: ObjectStats, o: ObjectStats): ObjectStats {
    m.(tally := Plus(m.tally, o.tally),
       nodes := Sort(AddNames(m.nodes, o.nodes)),
       path := if o.tally.last > m.tally.last then o.path else m.path,
       updatedAt := Later(m.updatedAt, o.updatedAt))
  }

  lemma MergeTwoIs(m: ObjectStats, o: ObjectStats)
    ensures var x := MergeTwo(m, o);
            x.tally == Plus(m.tally, o.tally) && x.clusterID == m.clusterID && x.Key() == m.Key()
  {
  }

  /** The position of the stats of a key, the length when there are none. */
  function KeyIndex(l: seq<ObjectStats>, k: string): (n: nat)
    ensures n <= |l|
    ensures n < |l| ==> l[n].Key() == k
    ensures forall i :: 0 <= i < n ==> l[i].Key() != k
  {
    if l == [] || l[0].Key() == k then 0 else 1 + KeyIndex(l[1..], k)
  }

  function MergeInto(l: seq<ObjectStats>, o: ObjectStats): seq<ObjectStats> {
    var i := KeyIndex(l, o.Key());
    if i < |l| then l[i := MergeTwo(l[i], o)] else l + [o]
  }

  /** The stats of the objects, one of each, in the order met. */
  function MergeAll(l: seq<ObjectStats>, objects: seq<ObjectStats>): seq<ObjectStats>
    decreases |objects|
  {
    if objects == [] then l else MergeAll(MergeInto(l, objects[0]), objects[1..])
  }

  function Flatten(lists: seq<seq<ObjectStats>>): seq<ObjectStats> {
    if lists == [] then [] else lists[0] + Flatten(lists[1..])
  }

  ghost predicate KeysOnce(l: seq<ObjectStats>) {
    forall i, j :: 0 <= i < j < |l| ==> l[i].Key() != l[j].Key()
  }

  /** The map and the order of the source stand for the list. */
  ghost predicate Stands(merged: map<string, ObjectStats>, order: seq<string>, l: seq<ObjectStats>) {
    && |order| == |l| && KeysOnce(l)
    && (forall i :: 0 <= i < |l| ==> order[i] == l[i].Key() && order[i] in merged && merged[order[i]] == l[i])
    && (forall k :: k in merged ==> k in order)
  }

  lemma StandsMerged(merged: map<string, ObjectStats>, order: seq<string>, l: seq<ObjectStats>, o: ObjectStats)
    requires Stands(merged, order, l) && o.Key() in merged
    ensures Stands(merged[o.Key() := MergeTwo(merged[o.Key()], o)], order, MergeInto(l, o))
  {
    var k, i := o.Key(), KeyIndex(l, o.Key());
    var j :| 0 <= j < |order| && order[j] == k;
    assert l[j].Key() == k;
    MergeTwoIs(l[i], o);
    StandsReplaced(merged, order, l, i, MergeTwo(l[i], o));
  }

  lemma StandsReplaced(merged: map<string, ObjectStats>, order: seq<string>, l: seq<ObjectStats>, i: nat,
                       x: ObjectStats)
    requires Stands(merged, order, l) && i < |l| && x.Key() == l[i].Key()
    ensures Stands(merged[x.Key() := x], order, l[i := x]) && merged[x.Key()] == l[i]
  {
    ReplacedKeys(l, i, x);
    forall n | 0 <= n < |l| && n != i ensures order[n] != x.Key() { assert l[n].Key() != l[i].Key(); }
  }

  lemma ReplacedKeys(l: seq<ObjectStats>, i: nat, x: ObjectStats)
    requires i < |l| && KeysOnce(l) && x.Key() == l[i].Key()
    ensures KeysOnce(l[i := x])
  {
  }

  lemma StandsAdded(merged: map<string, ObjectStats>, order: seq<string>, l: seq<ObjectStats>, o: ObjectStats)
    requires Stands(merged, order, l) && o.Key() !in merged
    ensures Stands(merged[o.Key() := o], order + [o.Key()], MergeInto(l, o))
  {
    forall n | 0 <= n < |l| ensures l[n].Key() != o.Key() { assert order[n] in merged; }
  }

  lemma {:induction false} MergeAllConcat(l: seq<ObjectStats>, a: seq<ObjectStats>, b: seq<ObjectStats>)
    ensures MergeAll(l, a + b) == MergeAll(MergeAll(l, a), b)
    decreases |a|
  {
    if a == [] {
      assert a + b == b;
    } else {
      assert (a + b)[1..] == a[1..] + b;
      MergeAllConcat(MergeInto(l, a[0]), a[1..], b);
    }
  }

  method MergeObjectStats(lists: seq<seq<ObjectStats>>) returns (r: seq<ObjectStats>)
    ensures r == MergeAll([], Flatten(lists)) && KeysOnce(r)
  {
    var merged: map<string, ObjectStats> := map[];
    var order: seq<string> := [];
    ghost var l: seq<ObjectStats> := [];
    for i := 0 to |lists|
      invariant Stands(merged, order, l)
      invariant MergeAll(l, Flatten(lists[i..])) == MergeAll([], Flatten(lists))
    {
      assert lists[i..][1..] == lists[i + 1..];
      ghost var rest := Flatten(lists[i + 1..]);
      MergeAllConcat(l, lists[i], rest);
      ghost var after := MergeAll(l, lists[i]);
      for j := 0 to |lists[i]|
        invariant Stands(merged, order, l)
        invariant MergeAll(l, lists[i][j..]) == after
      {
        var o := lists[i][j];
        assert lists[i][j..][1..] == lists[i][j + 1..];
        if o.Key() in merged { StandsMerged(merged, order, l, o); } else { StandsAdded(merged, order, l, o); }
        l := MergeInto(l, o);
        var k := o.Key();
        if k !in merged {
          merged := merged[k := o];
          order := order + [k];
        } else {
          merged := merged[k := MergeTwo(merged[k], o)];
        }
      }
    }
    r := [];
    for i := 0 to |order|
      invariant r == l[..i]
    {
      r := r + [merged[order[i]]];
    }
    assert l[..|order|] == l;
  }

  lemma {:induction false} AddNamesElements(nodes: seq<string>, more: seq<string>)
    ensures Elements(AddNames(nodes, more)) == Elements(nodes) + Elements(more)
    ensures Distinct(nodes) ==> Distinct(AddNames(nodes, more))
    decreases |more|
  {
    if more == [] {
    } else {
      var next := if more[0] in nodes then nodes else nodes + [more[0]];
      AddNamesElements(next, more[1..]);
      assert more == [more[0]] + more[1..];
      assert Elements(next) == Elements(nodes) + {more[0]};
      assert Elements(more) == {more[0]} + Elements(more[1..]);
    }
  }

  lemma OrderedIsDistinct(s: seq<string>)
    requires Ordered(s)
    ensures Distinct(s)
  {
    forall i, j | 0 <= i < j < |s| ensures s[i] != s[j] { LessTotal(s[i], s[i]); }
  }

  lemma MergeTwoNodes(m: ObjectStats, o: ObjectStats)
    requires Ordered(m.nodes)
    ensures Ordered(MergeTwo(m, o).nodes) && Elements(MergeTwo(m, o).nodes) == Elements(m.nodes) + Elements(o.nodes)
  {
    OrderedIsDistinct(m.nodes);
    AddNamesElements(m.nodes, o.nodes);
    SortOrders(AddNames(m.nodes, o.nodes));
  }

  /** The key of an object is the object: cluster ids hold no slash. */
  lemma KeyIsTheObject(a: ObjectStats, b: ObjectStats)
    requires !Has(a.clusterID, '/') && !Has(b.clusterID, '/')
    ensures a.Key() == b.Key() <==> a.clusterID == b.clusterID && a.objectID == b.objectID
  {
    CutAt(a.clusterID, '/', a.objectID);
    CutAt(b.clusterID, '/', b.objectID);
  }

  // ---------------------------------------------------------------- the parts of an object

  function FlattenRuns(parts: seq<seq<Run>>): seq<Run> {
    if parts == [] then [] else FlattenRuns(parts[..|parts| - 1]) + parts[|parts| - 1]
  }

  /** The stats of the parts of one object, each as NewObjectStats counts it. */
  ghost predicate CountsParts(objects: seq<ObjectStats>, parts: seq<seq<Run>>) {
    && |objects| == |parts|
    && (forall i :: 0 <= i < |parts| ==> IsStatsOf(objects[i], parts[i]))
    && (forall i, j :: 0 <= i < j < |parts| ==> objects[i].Key() == objects[j].Key())
  }

  ghost predicate IsStatsOf(o: ObjectStats, runs: seq<Run>) {
    o.tally == Count(runs) && Ordered(o.nodes) && Elements(o.nodes) == Writers(runs)
  }

  lemma WritersConcat(a: seq<Run>, b: seq<Run>)
    ensures Writers(a + b) == Writers(a) + Writers(b)
  {
    forall x | x in Writers(a) ensures x in Writers(a + b) {
      var i :| 0 <= i < |a| && a[i].completedAt != ZERO_TIME && a[i].node != "" && a[i].node == x;
      assert (a + b)[i] == a[i];
    }
    forall x | x in Writers(b) ensures x in Writers(a + b) {
      var i :| 0 <= i < |b| && b[i].completedAt != ZERO_TIME && b[i].node != "" && b[i].node == x;
      assert (a + b)[|a| + i] == b[i];
    }
  }

  /** The same figures, but perhaps for the first time. */
  ghost predicate SameButFirst(t: Tally, u: Tally) {
    t.(first := ZERO_TIME) == u.(first := ZERO_TIME)
  }

  /** The earliest of the first times of the parts, each counted alone. */
  ghost function FirstOfParts(parts: seq<seq<Run>>): int {
    if parts == [] then ZERO_TIME else Earlier(FirstOfParts(parts[..|parts| - 1]), Count(parts[|parts| - 1]).first)
  }

  /** What merging the stats of the parts gives. */
  ghost predicate IsMergeOf(o: ObjectStats, parts: seq<seq<Run>>) {
    && SameButFirst(o.tally, Count(FlattenRuns(parts))) && o.tally.first == FirstOfParts(parts)
    && Ordered(o.nodes) && Elements(o.nodes) == Writers(FlattenRuns(parts))
  }

  lemma PlusButFirst(t: Tally, a: Tally, b: Tally, c: Tally)
    requires SameButFirst(t, a) && SameButFirst(c, Plus(a, b))
    ensures SameButFirst(Plus(t, b), c) && Plus(t, b).first == Earlier(t.first, b.first)
  {
  }

  lemma MergeTwoParts(m: ObjectStats, parts: seq<seq<Run>>, o: ObjectStats)
    requires parts != [] && IsMergeOf(m, parts[..|parts| - 1]) && IsStatsOf(o, parts[|parts| - 1])
    ensures IsMergeOf(MergeTwo(m, o), parts)
  {
    var a, b := FlattenRuns(parts[..|parts| - 1]), parts[|parts| - 1];
    CountJoins(a, b);
    WritersConcat(a, b);
    MergeTwoNodes(m, o);
    PlusButFirst(m.tally, Count(a), o.tally, Count(a + b));
  }

  lemma OnePart(o: ObjectStats, part: seq<Run>)
    requires IsStatsOf(o, part)
    ensures IsMergeOf(o, [part])
  {
    assert [part][..0] == [];
    assert FlattenRuns([part]) == [] + part == part;
    assert Earlier(ZERO_TIME, o.tally.first) == o.tally.first;
  }

  lemma {:induction false} PartsMerge(objects: seq<ObjectStats>, parts: seq<seq<Run>>)
    requires CountsParts(objects, parts) && parts != []
    ensures var l := MergeAll([], objects); |l| == 1 && IsMergeOf(l[0], parts) && l[0].Key() == objects[0].Key()
    decreases |parts|
  {
    var n := |parts| - 1;
    var init, last := objects[..n], objects[n];
    assert objects == init + [last];
    MergeAllConcat([], init, [last]);
    if n == 0 {
      assert parts == [parts[0]];
      OnePart(last, parts[0]);
      MergeOne(last);
    } else {
      PartsMerge(init, parts[..n]);
      var m := MergeAll([], init)[0];
      assert MergeAll([], init) == [m] && objects[0].Key() == last.Key();
      MergeTwoParts(m, parts, last);
      MergeSame(m, last);
    }
  }

  /**
   Merging the stats of the parts of an object counts it whole, however it was split and whatever its runs, but for
   the first time, which is the earliest of the parts.
   */
  lemma PartsCountTheWhole(objects: seq<ObjectStats>, parts: seq<seq<Run>>, whole: ObjectStats)
    requires CountsParts(objects, parts) && parts != [] && IsStatsOf(whole, FlattenRuns(parts))
    ensures var l := MergeAll([], objects);
            && |l| == 1 && l[0].Key() == objects[0].Key()
            && l[0].nodes == whole.nodes && SameButFirst(l[0].tally, whole.tally) &&
                l[0].tally.first == FirstOfParts(parts)
  {
    PartsMerge(objects, parts);
    OrderedIsUnique(MergeAll([], objects)[0].nodes, whole.nodes);
  }

  /** Part `j` is the last one with a completed run that is not dated. */
  ghost predicate LastUndated(parts: seq<seq<Run>>, j: nat) {
    j < |parts| && !Dated(parts[j]) && forall k :: j < k < |parts| ==> Dated(parts[k])
  }

  lemma FirstOfConcat(a: seq<Run>, b: seq<Run>)
    requires Dated(b)
    ensures Count(a + b).first == Earlier(Count(a).first, Count(b).first)
  {
    CountJoins(a, b);
  }

  /** The first time of the whole forgets the parts before the last one not dated. */
  lemma {:induction false} FirstFromLastUndated(parts: seq<seq<Run>>, j: nat)
    requires LastUndated(parts, j)
    ensures Count(FlattenRuns(parts)).first == FirstOfParts(parts[j..])
    decreases |parts|
  {
    var n := |parts| - 1;
    var a, b := FlattenRuns(parts[..n]), parts[n];
    if j == n {
      CountConcat(NOTHING, a, b);
      FirstForgets(Count(a), NOTHING, b);
      assert parts[j..] == [b] && [b][..0] == [];
    } else {
      FirstFromLastUndated(parts[..n], j);
      FirstOfConcat(a, b);
      assert parts[j..][..n - j] == parts[..n][j..] && parts[j..][n - j] == b;
    }
  }

  lemma {:induction false} FirstOfDated(parts: seq<seq<Run>>)
    requires forall k :: 0 <= k < |parts| ==> Dated(parts[k])
    ensures Count(FlattenRuns(parts)).first == FirstOfParts(parts)
  {
    if parts == [] {
    } else {
      var n := |parts| - 1;
      FirstOfDated(parts[..n]);
      FirstOfConcat(FlattenRuns(parts[..n]), parts[n]);
    }
  }

  lemma {:induction false} FirstOfPartsConcat(a: seq<seq<Run>>, b: seq<seq<Run>>)
    ensures FirstOfParts(a + b) == Earlier(FirstOfParts(a), FirstOfParts(b))
    decreases |b|
  {
    if b == [] {
      assert a + b == a;
    } else {
      var n := |b| - 1;
      assert (a + b)[..|a| + n] == a + b[..n] && (a + b)[|a| + n] == b[n];
      FirstOfPartsConcat(a, b[..n]);
    }
  }

  lemma {:induction false} LastUndatedIsThere(parts: seq<seq<Run>>) returns (j: nat)
    requires exists k :: 0 <= k < |parts| && !Dated(parts[k])
    ensures LastUndated(parts, j)
    decreases |parts|
  {
    var n := |parts| - 1;
    if !Dated(parts[n]) { return n; }
    j := LastUndatedIsThere(parts[..n]);
  }

  /** The parts before `j` have no first time, or the ones from it on have one that is not later. */
  ghost predicate NoneEarlierBefore(parts: seq<seq<Run>>, j: nat)
    requires j <= |parts|
  {
    FirstOfParts(parts[..j]) == ZERO_TIME || ZERO_TIME < FirstOfParts(parts[j..]) <= FirstOfParts(parts[..j])
  }

  lemma FirstJoinsAt(parts: seq<seq<Run>>, j: nat)
    requires LastUndated(parts, j)
    ensures FirstOfParts(parts) == Count(FlattenRuns(parts)).first <==> NoneEarlierBefore(parts, j)
  {
    assert parts == parts[..j] + parts[j..];
    FirstOfPartsConcat(parts[..j], parts[j..]);
    FirstFromLastUndated(parts, j);
  }

  /**
   The first time merged is that of the whole exactly when no part before the last one with a run not dated has an
   earlier one: always, when every run is dated.
   */
  lemma PartsFirstExactly(parts: seq<seq<Run>>)
    ensures FirstOfParts(parts) == Count(FlattenRuns(parts)).first <==> forall j :: LastUndated(parts, j) ==>
            NoneEarlierBefore(parts, j)
  {
    if forall k :: 0 <= k < |parts| ==> Dated(parts[k]) {
      FirstOfDated(parts);
    } else {
      var j := LastUndatedIsThere(parts);
      FirstJoinsAt(parts, j);
      forall i | LastUndated(parts, i) ensures i == j { }
    }
  }

  lemma MergeOne(o: ObjectStats)
    ensures MergeAll([], [o]) == [o]
  {
    assert [o][1..] == [];
    assert MergeInto([], o) == [o];
  }

  lemma MergeSame(m: ObjectStats, o: ObjectStats)
    requires m.Key() == o.Key()
    ensures MergeAll([m], [o]) == [MergeTwo(m, o)]
  {
    assert [o][1..] == [];
    assert MergeInto([m], o) == [MergeTwo(m, o)];
  }

  // ---------------------------------------------------------------- summing the objects of a store

  datatype ClusterStats = ClusterStats(
    clusterID: string,
    clusterName: string,
    runs: nat,
    incomplete: nat,
    protected: nat,
    objects: nat,
    last: Time,
    logical: int)

  /** The stored bytes of the tally are summed apart, and told when all of them are known. */
  datatype StoreStats = StoreStats(tally: Tally, objects: nat, stored: Option<int>, clusters: seq<ClusterStats>)

  /** An object counts once it holds a run. */
  predicate Holds(o: ObjectStats) {
    o.tally.runs + o.tally.incomplete != 0
  }

  predicate Selected(o: ObjectStats, only: Option<string>) {
    Holds(o) && (only.None? || only.value == o.clusterID)
  }

  /** A figure of an object, and the ones the source gathers. */
  type Figure = ObjectStats -> int

  function RunsOf(o: ObjectStats): int { o.tally.runs }
  function IncompleteOf(o: ObjectStats): int { o.tally.incomplete }
  function ProtectedOf(o: ObjectStats): int { o.tally.protected }
  function LogicalOf(o: ObjectStats): int { o.tally.logical }
  function StoredOf(o: ObjectStats): int { o.tally.stored }
  function FirstOf(o: ObjectStats): int { o.tally.first }
  function LastOf(o: ObjectStats): int { o.tally.last }
  function One(o: ObjectStats): int { 1 }
  function Add(a: int, b: int): int { a + b }

  /** What an object counts for in a cluster, or in all of them. */
  ghost function Weight(f: Figure, o: ObjectStats, only: Option<string>): int {
    if Selected(o, only) then f(o) else 0
  }

  ghost function Weights(f: Figure, objects: seq<ObjectStats>, only: Option<string>): (w: seq<int>)
    ensures |w| == |objects|
  {
    seq(|objects|, i requires 0 <= i < |objects| => Weight(f, objects[i], only))
  }

  /** A figure of the objects of a cluster, or of all of them, gathered with an operation. */
  ghost function Gather(op: (int, int) -> int, f: Figure, objects: seq<ObjectStats>, only: Option<string>): int {
    Fold(op, 0, Weights(f, objects, only))
  }

  lemma GatherNext(op: (int, int) -> int, f: Figure, objects: seq<ObjectStats>, o: ObjectStats, only: Option<string>)
    ensures Gather(op, f, objects + [o], only) == op(Gather(op, f, objects, only), Weight(f, o, only))
  {
    assert Weights(f, objects + [o], only) == Weights(f, objects, only) + [Weight(f, o, only)];
    FoldNext(op, 0, Weights(f, objects, only), Weight(f, o, only));
  }

  /** `t` is what the objects count together: sums, the first of the first times, the last of the last ones. */
  ghost predicate IsTotal(t: Tally, objects: seq<ObjectStats>, only: Option<string>) {
    && t.runs == Gather(Add, RunsOf, objects, only)
    && t.incomplete == Gather(Add, IncompleteOf, objects, only)
    && t.protected == Gather(Add, ProtectedOf, objects, only)
    && t.logical == Gather(Add, LogicalOf, objects, only)
    && t.stored == Gather(Add, StoredOf, objects, only)
    && t.first == Gather(Earlier, FirstOf, objects, only)
    && t.last == Gather(Later, LastOf, objects, only)
  }

  lemma TotalNext(t: Tally, objects: seq<ObjectStats>, o: ObjectStats, only: Option<string>)
    requires IsTotal(t, objects, only)
    ensures IsTotal(if Selected(o, only) then Plus(t, o.tally) else t, objects + [o], only)
  {
    GatherNext(Add, RunsOf, objects, o, only);
    GatherNext(Add, IncompleteOf, objects, o, only);
    GatherNext(Add, ProtectedOf, objects, o, only);
    GatherNext(Add, LogicalOf, objects, o, only);
    GatherNext(Add, StoredOf, objects, o, only);
    GatherNext(Earlier, FirstOf, objects, o, only);
    GatherNext(Later, LastOf, objects, o, only);
  }

  /** Every object with a completed run tells what it takes in the store. */
  ghost predicate StoredKnown(objects: seq<ObjectStats>) {
    forall i :: 0 <= i < |objects| && Holds(objects[i]) && objects[i].tally.runs > 0 ==> objects[i].tally.stored != 0
  }

  /** `c` is the line of its cluster. */
  ghost predicate IsClusterOf(c: ClusterStats, objects: seq<ObjectStats>) {
    var only := Some(c.clusterID);
    && c.runs == Gather(Add, RunsOf, objects, only)
    && c.incomplete == Gather(Add, IncompleteOf, objects, only)
    && c.protected == Gather(Add, ProtectedOf, objects, only)
    && c.logical == Gather(Add, LogicalOf, objects, only)
    && c.objects == Gather(Add, One, objects, only)
    && c.last == Gather(Later, LastOf, objects, only)
    && IsNameOf(c.clusterName, c.clusterID, objects)
  }

  /** Object `i` is the first of the cluster to tell its name, among the ones with a run. */
  ghost predicate FirstToName(name: string, id: string, objects: seq<ObjectStats>, i: nat) {
    && i < |objects| && Selected(objects[i], Some(id)) && objects[i].clusterName == name
    && forall j :: 0 <= j < i && Selected(objects[j], Some(id)) ==> objects[j].clusterName == ""
  }

  /** The first name told, none when no object tells one. */
  ghost predicate IsNameOf(name: string, id: string, objects: seq<ObjectStats>) {
    if name == "" then forall i :: 0 <= i < |objects| && Selected(objects[i], Some(id)) ==> objects[i].clusterName == ""
    else exists i: nat :: FirstToName(name, id, objects, i)
  }

  lemma NameNext(name: string, id: string, objects: seq<ObjectStats>, o: ObjectStats)
    requires IsNameOf(name, id, objects)
    ensures IsNameOf(if Selected(o, Some(id)) && name == "" then o.clusterName else name, id, objects + [o])
  {
    var l := objects + [o];
    assert l[|objects|] == o && forall i :: 0 <= i < |objects| ==> l[i] == objects[i];
    if name != "" {
      var i: nat :| FirstToName(name, id, objects, i);
      assert FirstToName(name, id, l, i);
    } else if Selected(o, Some(id)) && o.clusterName != "" {
      assert FirstToName(o.clusterName, id, l, |objects|);
    }
  }

  function AddToCluster(c: ClusterStats, o: ObjectStats): ClusterStats {
    c.(clusterName := if c.clusterName == "" then o.clusterName else c.clusterName,
       runs := c.runs + o.tally.runs,
       incomplete := c.incomplete + o.tally.incomplete,
       protected := c.protected + o.tally.protected,
       objects := c.objects + 1,
       logical := c.logical + o.tally.logical,
       last := Later(c.last, o.tally.last))
  }

  lemma ClusterNext(c: ClusterStats, objects: seq<ObjectStats>, o: ObjectStats)
    requires IsClusterOf(c, objects)
    ensures IsClusterOf(if Selected(o, Some(c.clusterID)) then AddToCluster(c, o) else c, objects + [o])
  {
    var only := Some(c.clusterID);
    NameNext(c.clusterName, c.clusterID, objects, o);
    GatherNext(Add, RunsOf, objects, o, only);
    GatherNext(Add, IncompleteOf, objects, o, only);
    GatherNext(Add, ProtectedOf, objects, o, only);
    GatherNext(Add, LogicalOf, objects, o, only);
    GatherNext(Add, One, objects, o, only);
    GatherNext(Later, LastOf, objects, o, only);
  }

  function NewCluster(id: string): ClusterStats {
    ClusterStats(id, "", 0, 0, 0, 0, ZERO_TIME, 0)
  }

  lemma {:induction false} NoneOfCluster(objects: seq<ObjectStats>, id: string)
    requires forall i :: 0 <= i < |objects| && Holds(objects[i]) ==> objects[i].clusterID != id
    ensures IsClusterOf(NewCluster(id), objects)
  {
    if objects == [] {
    } else {
      var n := |objects| - 1;
      NoneOfCluster(objects[..n], id);
      assert objects == objects[..n] + [objects[n]];
      ClusterNext(NewCluster(id), objects[..n], objects[n]);
    }
  }

  /** The lines by cluster, after the objects. */
  ghost predicate ByCluster(m: map<string, ClusterStats>, objects: seq<ObjectStats>) {
    && (forall id :: id in m ==> m[id].clusterID == id && m[id].objects > 0 && IsClusterOf(m[id], objects))
    && (forall i :: 0 <= i < |objects| && Holds(objects[i]) ==> objects[i].clusterID in m)
  }

  /** The line of a cluster after an object. */
  function LineNext(m: map<string, ClusterStats>, o: ObjectStats): map<string, ClusterStats> {
    if Holds(o) then
      m[o.clusterID := AddToCluster(if o.clusterID in m then m[o.clusterID] else NewCluster(o.clusterID), o)]
    else m
  }

  lemma LineOf(m: map<string, ClusterStats>, objects: seq<ObjectStats>, o: ObjectStats, id: string)
    requires ByCluster(m, objects) && id in LineNext(m, o)
    ensures var c := LineNext(m, o)[id]; c.clusterID == id && c.objects > 0 && IsClusterOf(c, objects + [o])
  {
    var line := if id in m then m[id] else NewCluster(id);
    if id !in m { NoneOfCluster(objects, id); }
    ClusterNext(line, objects, o);
    if id != o.clusterID || !Holds(o) { assert LineNext(m, o)[id] == line; }
  }

  lemma ByClusterNext(m: map<string, ClusterStats>, objects: seq<ObjectStats>, o: ObjectStats)
    requires ByCluster(m, objects)
    ensures ByCluster(LineNext(m, o), objects + [o])
  {
    var l := objects + [o];
    forall id | id in LineNext(m, o)
      ensures var c := LineNext(m, o)[id]; c.clusterID == id && c.objects > 0 && IsClusterOf(c, l)
    {
      LineOf(m, objects, o, id);
    }
    forall i | 0 <= i < |l| && Holds(l[i]) ensures l[i].clusterID in LineNext(m, o) {
      assert i < |objects| ==> l[i] == objects[i];
    }
  }

  function InsertByLast(s: seq<ClusterStats>, c: ClusterStats): seq<ClusterStats> {
    if s == [] || s[0].last < c.last then [c] + s else [s[0]] + InsertByLast(s[1..], c)
  }

  ghost predicate LatestFirst(s: seq<ClusterStats>) {
    forall i, j :: 0 <= i < j < |s| ==> s[i].last >= s[j].last
  }

  lemma {:induction false} InsertByLastContents(s: seq<ClusterStats>, c: ClusterStats)
    ensures multiset(InsertByLast(s, c)) == multiset(s) + multiset{c}
  {
    if s != [] && s[0].last >= c.last {
      InsertByLastContents(s[1..], c);
      assert s == [s[0]] + s[1..];
    }
  }

  ghost predicate NoneLater(s: seq<ClusterStats>, t: int) {
    forall i :: 0 <= i < |s| ==> s[i].last <= t
  }

  lemma {:induction false} InsertNoneLater(s: seq<ClusterStats>, c: ClusterStats, t: int)
    requires NoneLater(s, t) && c.last <= t
    ensures NoneLater(InsertByLast(s, c), t)
  {
    if s == [] || s[0].last < c.last {
    } else {
      InsertNoneLater(s[1..], c, t);
    }
  }

  lemma LatestAhead(h: ClusterStats, s: seq<ClusterStats>)
    requires LatestFirst(s) && NoneLater(s, h.last)
    ensures LatestFirst([h] + s)
  {
  }

  lemma {:induction false} InsertByLastSorts(s: seq<ClusterStats>, c: ClusterStats)
    requires LatestFirst(s)
    ensures LatestFirst(InsertByLast(s, c))
  {
    if s == [] {
    } else if s[0].last < c.last {
      LatestAhead(c, s);
    } else {
      InsertByLastSorts(s[1..], c);
      InsertNoneLater(s[1..], c, s[0].last);
      LatestAhead(s[0], InsertByLast(s[1..], c));
    }
  }

  /** The clusters of the map, each once, the one written last first. */
  method ListClusters(m: map<string, ClusterStats>) returns (l: seq<ClusterStats>)
    requires forall id :: id in m ==> m[id].clusterID == id
    ensures LatestFirst(l) && ClustersOnce(l)
    ensures forall c :: c in l <==> c.clusterID in m && m[c.clusterID] == c
  {
    l := [];
    var ids := m.Keys;
    while ids != {}
      invariant ids <= m.Keys && LatestFirst(l) && ClustersOnce(l)
      invariant forall c :: c in l <==> c.clusterID in m && c.clusterID !in ids && m[c.clusterID] == c
      decreases ids
    {
      var id :| id in ids;
      InsertByLastSorts(l, m[id]);
      InsertByLastOnce(l, m[id]);
      l := InsertByLast(l, m[id]);
      ids := ids - {id};
    }
  }

  ghost predicate ClustersOnce(l: seq<ClusterStats>) {
    forall i, j :: 0 <= i < j < |l| ==> l[i].clusterID != l[j].clusterID
  }

  lemma {:induction false} InsertByLastOnce(s: seq<ClusterStats>, c: ClusterStats)
    requires ClustersOnce(s) && forall x :: x in s ==> x.clusterID != c.clusterID
    ensures ClustersOnce(InsertByLast(s, c))
    ensures forall x :: x in InsertByLast(s, c) <==> x in s || x == c
  {
    if s != [] && s[0].last >= c.last {
      var r := InsertByLast(s[1..], c);
      InsertByLastOnce(s[1..], c);
      assert s == [s[0]] + s[1..];
      forall i | 0 <= i < |r| ensures s[0].clusterID != r[i].clusterID { assert r[i] in r; }
    }
  }

  ghost predicate SumsUp(s: StoreStats, objects: seq<ObjectStats>) {
    IsTotal(s.tally, objects, None) && s.objects == Gather(Add, One, objects, None)
  }

  /** The sums with one object more, as they are written out in the source. */
  method AddObject(s: StoreStats, o: ObjectStats, ghost objects: seq<ObjectStats>) returns (t: StoreStats)
    requires SumsUp(s, objects) && Holds(o)
    ensures SumsUp(t, objects + [o])
  {
    TotalNext(s.tally, objects, o, None);
    GatherNext(Add, One, objects, o, None);
    var f, x := s.tally, o.tally;
    f := f.(runs := f.runs + x.runs, incomplete := f.incomplete + x.incomplete, protected := f.protected + x.protected,
            logical := f.logical + x.logical, stored := f.stored + x.stored);
    if x.first != ZERO_TIME && (f.first == ZERO_TIME || x.first < f.first) {
      f := f.(first := x.first);
    }
    if x.last > f.last {
      f := f.(last := x.last);
    }
    t := s.(tally := f, objects := s.objects + 1);
  }

  lemma StoredNext(objects: seq<ObjectStats>, o: ObjectStats)
    ensures StoredKnown(objects + [o])
            <==> StoredKnown(objects) && (Holds(o) && o.tally.runs > 0 ==> o.tally.stored != 0)
  {
    var l := objects + [o];
    assert l[|objects|] == o;
    assert forall i :: 0 <= i < |objects| ==> l[i] == objects[i];
  }

  lemma SumsSkip(s: StoreStats, objects: seq<ObjectStats>, o: ObjectStats)
    requires SumsUp(s, objects) && !Holds(o)
    ensures SumsUp(s, objects + [o])
  {
    TotalNext(s.tally, objects, o, None);
    GatherNext(Add, One, objects, o, None);
  }

  /** Every object counted is in the line of its cluster. */
  ghost predicate AllInClusters(objects: seq<ObjectStats>, clusters: seq<ClusterStats>) {
    forall i :: 0 <= i < |objects| && Holds(objects[i]) ==>
        exists c :: c in clusters && c.clusterID == objects[i].clusterID
  }

  lemma ListedClusters(m: map<string, ClusterStats>, objects: seq<ObjectStats>, l: seq<ClusterStats>)
    requires ByCluster(m, objects) && forall c :: c in l <==> c.clusterID in m && m[c.clusterID] == c
    ensures AllInClusters(objects, l) && forall c :: c in l ==> c.objects > 0 && IsClusterOf(c, objects)
  {
    forall i | 0 <= i < |objects| && Holds(objects[i]) ensures
        exists c :: c in l && c.clusterID == objects[i].clusterID {
      assert m[objects[i].clusterID] in l;
    }
  }

  /** The totals, whether the stored bytes are known, and the lines, of these objects. */
  ghost predicate Summed(s: StoreStats, known: bool, lines: map<string, ClusterStats>, objects: seq<ObjectStats>) {
    SumsUp(s, objects) && (known <==> StoredKnown(objects)) && ByCluster(lines, objects)
  }

  /** One object more. */
  method SumObject(s: StoreStats, known: bool, lines: map<string, ClusterStats>, o: ObjectStats,
                   ghost objects: seq<ObjectStats>)
    returns (t: StoreStats, tKnown: bool, tLines: map<string, ClusterStats>)
    requires Summed(s, known, lines, objects)
    ensures Summed(t, tKnown, tLines, objects + [o])
  {
    t, tKnown, tLines := s, known, lines;
    StoredNext(objects, o);
    ByClusterNext(lines, objects, o);
    if !Holds(o) {
      SumsSkip(s, objects, o);
      return;
    }
    t := AddObject(s, o, objects);
    if o.tally.runs > 0 && o.tally.stored == 0 {
      tKnown := false;
    }
    tLines := LineNext(lines, o);
  }

  lemma TakeNext<T>(s: seq<T>, i: nat)
    requires i < |s|
    ensures s[..i + 1] == s[..i] + [s[i]]
  {
  }

  lemma SumsOfNone(s: StoreStats)
    requires s.tally == NOTHING && s.objects == 0
    ensures Summed(s, true, map[], [])
  {
  }

  lemma Completed(s: StoreStats, t: StoreStats, objects: seq<ObjectStats>)
    requires SumsUp(s, objects) && t.tally == s.tally && t.objects == s.objects
    ensures SumsUp(t, objects)
  {
  }

  method SumObjects(objects: seq<ObjectStats>) returns (s: StoreStats, known: bool, lines: map<string, ClusterStats>)
    ensures Summed(s, known, lines, objects)
  {
    s, known, lines := StoreStats(NOTHING, 0, None, []), true, map[];
    SumsOfNone(s);
    assert objects[..0] == [];
    for i := 0 to |objects|
      invariant Summed(s, known, lines, objects[..i])
    {
      s, known, lines := SumObject(s, known, lines, objects[i], objects[..i]);
      TakeNext(objects, i);
    }
    assert objects[..|objects|] == objects;
  }

  method SumStats(objects: seq<ObjectStats>) returns (s: StoreStats)
    ensures SumsUp(s, objects)
    ensures s.stored == if StoredKnown(objects) && s.objects > 0 then Some(s.tally.stored) else None
    ensures LatestFirst(s.clusters) && ClustersOnce(s.clusters)
    ensures AllInClusters(objects, s.clusters)
    ensures forall c :: c in s.clusters ==> c.objects > 0 && IsClusterOf(c, objects)
  {
    var sums, storedKnown, byCluster := SumObjects(objects);
    var clusters := ListClusters(byCluster);
    ListedClusters(byCluster, objects, clusters);
    var stored := if storedKnown && sums.objects > 0 then Some(sums.tally.stored) else None;
    s := sums.(clusters := clusters, stored := stored);
    Completed(sums, s, objects);
  }

  /** The object has a run, completed or not, and is of the cluster, if one is asked for. */
  ghost predicate InTotal(o: ObjectStats, only: Option<string>) {
    (o.tally.runs > 0 || o.tally.incomplete > 0) && (only == None || only == Some(o.clusterID))
  }

  /** The sum of a figure of these objects. */
  ghost function Total(f: Figure, objects: seq<ObjectStats>, only: Option<string>): int {
    if objects == [] then 0
    else
      var n := |objects| - 1;
      Total(f, objects[..n], only) + if InTotal(objects[n], only) then f(objects[n]) else 0
  }

  lemma {:induction false} GatherIsTotal(f: Figure, g: Figure, objects: seq<ObjectStats>, only: Option<string>)
    requires forall o :: f(o) == g(o)
    ensures Gather(Add, f, objects, only) == Total(g, objects, only)
  {
    if objects == [] {
    } else {
      var n := |objects| - 1;
      GatherIsTotal(f, g, objects[..n], only);
      assert objects == objects[..n] + [objects[n]];
      GatherNext(Add, f, objects[..n], objects[n], only);
    }
  }

  ghost function Positions(objects: seq<ObjectStats>, only: Option<string>): set<nat> {
    set i: nat | i < |objects| && InTotal(objects[i], only)
  }

  lemma PositionsNext(objects: seq<ObjectStats>, o: ObjectStats, only: Option<string>)
    ensures Positions(objects + [o], only) == Positions(objects, only) + if InTotal(o, only) then {|objects|} else {}
  {
    var l := objects + [o];
    assert l[|objects|] == o && forall i :: 0 <= i < |objects| ==> l[i] == objects[i];
  }

  /** How many objects have a run. */
  lemma {:induction false} ObjectsAre(objects: seq<ObjectStats>, only: Option<string>)
    ensures Gather(Add, One, objects, only) == |Positions(objects, only)|
  {
    if objects == [] {
    } else {
      var n := |objects| - 1;
      var o, init := objects[n], objects[..n];
      ObjectsAre(init, only);
      assert objects == init + [o];
      GatherNext(Add, One, init, o, only);
      PositionsNext(init, o, only);
    }
  }

  /** The latest of the last times, none when there is none. */
  ghost predicate IsLatest(t: int, objects: seq<ObjectStats>, only: Option<string>) {
    && (forall i :: 0 <= i < |objects| && InTotal(objects[i], only) ==> objects[i].tally.last <= t)
    && (t == ZERO_TIME || exists i :: 0 <= i < |objects| && InTotal(objects[i], only) && objects[i].tally.last == t)
  }

  /** The earliest of the first times that are one, none when there is none. */
  ghost predicate IsEarliest(t: int, objects: seq<ObjectStats>, only: Option<string>) {
    && (forall i :: 0 <= i < |objects| && InTotal(objects[i], only) && objects[i].tally.first != ZERO_TIME ==>
          t != ZERO_TIME && t <= objects[i].tally.first)
    && (t == ZERO_TIME || exists i :: 0 <= i < |objects| && InTotal(objects[i], only) && objects[i].tally.first == t)
  }

  lemma {:induction false} LastAre(objects: seq<ObjectStats>, only: Option<string>)
    ensures IsLatest(Gather(Later, LastOf, objects, only), objects, only)
  {
    if objects == [] {
    } else {
      var n := |objects| - 1;
      LastAre(objects[..n], only);
      assert objects == objects[..n] + [objects[n]];
      GatherNext(Later, LastOf, objects[..n], objects[n], only);
      assert forall i :: 0 <= i < n ==> objects[..n][i] == objects[i];
    }
  }

  lemma {:induction false} FirstAre(objects: seq<ObjectStats>, only: Option<string>)
    ensures IsEarliest(Gather(Earlier, FirstOf, objects, only), objects, only)
  {
    if objects == [] {
    } else {
      var n := |objects| - 1;
      FirstAre(objects[..n], only);
      assert objects == objects[..n] + [objects[n]];
      GatherNext(Earlier, FirstOf, objects[..n], objects[n], only);
      assert forall i :: 0 <= i < n ==> objects[..n][i] == objects[i];
    }
  }

  /** What is summed: the objects with a run, completed or not, and nothing else. */
  lemma TotalsAre(t: Tally, objects: seq<ObjectStats>, only: Option<string>)
    requires IsTotal(t, objects, only)
    ensures t.runs == Total((o: ObjectStats) => o.tally.runs, objects, only)
    ensures t.incomplete == Total((o: ObjectStats) => o.tally.incomplete, objects, only)
    ensures t.protected == Total((o: ObjectStats) => o.tally.protected, objects, only)
    ensures t.logical == Total((o: ObjectStats) => o.tally.logical, objects, only)
    ensures t.stored == Total((o: ObjectStats) => o.tally.stored, objects, only)
    ensures IsEarliest(t.first, objects, only) && IsLatest(t.last, objects, only)
  {
    GatherIsTotal(RunsOf, (o: ObjectStats) => o.tally.runs, objects, only);
    GatherIsTotal(IncompleteOf, (o: ObjectStats) => o.tally.incomplete, objects, only);
    GatherIsTotal(ProtectedOf, (o: ObjectStats) => o.tally.protected, objects, only);
    GatherIsTotal(LogicalOf, (o: ObjectStats) => o.tally.logical, objects, only);
    GatherIsTotal(StoredOf, (o: ObjectStats) => o.tally.stored, objects, only);
    FirstAre(objects, only);
    LastAre(objects, only);
  }

  /** None of the first `n` objects, of the ones with a run of a cluster, tells its name. */
  ghost predicate NoName(objects: seq<ObjectStats>, n: nat, id: string) {
    n <= |objects| && forall i :: 0 <= i < n && InTotal(objects[i], Some(id)) ==> objects[i].clusterName == ""
  }

  /** The name of a line is the first its objects with a run tell. */
  lemma LineIsNamed(c: ClusterStats, objects: seq<ObjectStats>)
    requires IsClusterOf(c, objects)
    ensures c.clusterName == "" ==> NoName(objects, |objects|, c.clusterID)
    ensures c.clusterName != "" ==>
              exists i :: i in Positions(objects, Some(c.clusterID)) && objects[i].clusterName == c.clusterName
                          && NoName(objects, i, c.clusterID)
  {
    if c.clusterName != "" {
      var i: nat :| FirstToName(c.clusterName, c.clusterID, objects, i);
      assert i in Positions(objects, Some(c.clusterID)) && NoName(objects, i, c.clusterID);
    }
  }

  /** The line of a cluster sums its objects with a run. */
  lemma LineIs(c: ClusterStats, objects: seq<ObjectStats>)
    requires IsClusterOf(c, objects)
    ensures var only := Some(c.clusterID);
            && c.runs == Total((o: ObjectStats) => o.tally.runs, objects, only)
            && c.incomplete == Total((o: ObjectStats) => o.tally.incomplete, objects, only)
            && c.protected == Total((o: ObjectStats) => o.tally.protected, objects, only)
            && c.logical == Total((o: ObjectStats) => o.tally.logical, objects, only)
            && c.objects == |Positions(objects, only)|
            && IsLatest(c.last, objects, only)
  {
    var only := Some(c.clusterID);
    GatherIsTotal(RunsOf, (o: ObjectStats) => o.tally.runs, objects, only);
    GatherIsTotal(IncompleteOf, (o: ObjectStats) => o.tally.incomplete, objects, only);
    GatherIsTotal(ProtectedOf, (o: ObjectStats) => o.tally.protected, objects, only);
    GatherIsTotal(LogicalOf, (o: ObjectStats) => o.tally.logical, objects, only);
    ObjectsAre(objects, only);
    LastAre(objects, only);
  }

  // ---------------------------------------------------------------- the breakdown

  ghost function SumIds(f: Figure, objects: seq<ObjectStats>, ids: seq<string>): int {
    if ids == [] then 0 else Gather(Add, f, objects, Some(ids[0])) + SumIds(f, objects, ids[1..])
  }

  ghost function OneIds(f: Figure, o: ObjectStats, ids: seq<string>): int {
    if ids == [] then 0 else Weight(f, o, Some(ids[0])) + OneIds(f, o, ids[1..])
  }

  lemma {:induction false} SumIdsNext(f: Figure, objects: seq<ObjectStats>, o: ObjectStats, ids: seq<string>)
    ensures SumIds(f, objects + [o], ids) == SumIds(f, objects, ids) + OneIds(f, o, ids)
  {
    if ids == [] {
    } else {
      GatherNext(Add, f, objects, o, Some(ids[0]));
      SumIdsNext(f, objects, o, ids[1..]);
    }
  }

  lemma {:induction false} OneIdsAway(f: Figure, o: ObjectStats, ids: seq<string>)
    requires !Holds(o) || o.clusterID !in ids
    ensures OneIds(f, o, ids) == 0
  {
    if ids == [] {
    } else {
      OneIdsAway(f, o, ids[1..]);
    }
  }

  /** An object is in the line of one cluster. */
  lemma {:induction false} OneIdsOnce(f: Figure, o: ObjectStats, ids: seq<string>)
    requires Distinct(ids) && Holds(o) && o.clusterID in ids
    ensures OneIds(f, o, ids) == f(o)
  {
    if ids[0] == o.clusterID {
      OneIdsAway(f, o, ids[1..]);
    } else {
      OneIdsOnce(f, o, ids[1..]);
    }
  }

  lemma {:induction false} SumIdsOfNone(f: Figure, ids: seq<string>)
    ensures SumIds(f, [], ids) == 0
  {
    if ids == [] {
    } else {
      SumIdsOfNone(f, ids[1..]);
    }
  }

  /** Summed by cluster, then over the clusters, a figure is summed once. */
  lemma {:induction false} SumIdsIsTheSum(f: Figure, objects: seq<ObjectStats>, ids: seq<string>)
    requires Distinct(ids)
    requires forall i :: 0 <= i < |objects| && Holds(objects[i]) ==> objects[i].clusterID in ids
    ensures SumIds(f, objects, ids) == Gather(Add, f, objects, None)
  {
    if objects == [] {
      SumIdsOfNone(f, ids);
    } else {
      var n := |objects| - 1;
      var o := objects[n];
      assert objects == objects[..n] + [o];
      SumIdsIsTheSum(f, objects[..n], ids);
      SumIdsNext(f, objects[..n], o, ids);
      GatherNext(Add, f, objects[..n], o, None);
      if Holds(o) { OneIdsOnce(f, o, ids); } else { OneIdsAway(f, o, ids); }
    }
  }

  function SumClusters(f: ClusterStats -> int, l: seq<ClusterStats>): int {
    if l == [] then 0 else f(l[0]) + SumClusters(f, l[1..])
  }

  function Ids(l: seq<ClusterStats>): (ids: seq<string>)
    ensures |ids| == |l| && forall i :: 0 <= i < |l| ==> ids[i] == l[i].clusterID
  {
    if l == [] then [] else [l[0].clusterID] + Ids(l[1..])
  }

  lemma {:induction false} SumClustersIsSumIds(g: ClusterStats -> int, f: Figure, objects: seq<ObjectStats>,
                                               l: seq<ClusterStats>)
    requires forall i :: 0 <= i < |l| ==> g(l[i]) == Gather(Add, f, objects, Some(l[i].clusterID))
    ensures SumClusters(g, l) == SumIds(f, objects, Ids(l))
  {
    if l == [] {
    } else {
      SumClustersIsSumIds(g, f, objects, l[1..]);
      assert Ids(l)[1..] == Ids(l[1..]);
    }
  }

  /** A figure of the lines, summed, is the figure of the store. */
  lemma LinesSumUp(g: ClusterStats -> int, f: Figure, objects: seq<ObjectStats>, l: seq<ClusterStats>)
    requires ClustersOnce(l) && AllInClusters(objects, l)
    requires forall i :: 0 <= i < |l| ==> g(l[i]) == Gather(Add, f, objects, Some(l[i].clusterID))
    ensures SumClusters(g, l) == Gather(Add, f, objects, None)
  {
    var ids := Ids(l);
    forall i | 0 <= i < |objects| && Holds(objects[i]) ensures objects[i].clusterID in ids {
      var c :| c in l && c.clusterID == objects[i].clusterID;
      var k :| 0 <= k < |l| && l[k] == c;
      assert ids[k] == c.clusterID;
    }
    SumClustersIsSumIds(g, f, objects, l);
    SumIdsIsTheSum(f, objects, ids);
  }

  /** The breakdown by cluster sums to the totals. */
  lemma BreakdownSumsUp(objects: seq<ObjectStats>, s: StoreStats)
    requires SumsUp(s, objects) && ClustersOnce(s.clusters) && AllInClusters(objects, s.clusters)
    requires forall c :: c in s.clusters ==> IsClusterOf(c, objects)
    ensures SumClusters((c: ClusterStats) => c.runs, s.clusters) == s.tally.runs
    ensures SumClusters((c: ClusterStats) => c.incomplete, s.clusters) == s.tally.incomplete
    ensures SumClusters((c: ClusterStats) => c.protected, s.clusters) == s.tally.protected
    ensures SumClusters((c: ClusterStats) => c.logical, s.clusters) == s.tally.logical
    ensures SumClusters((c: ClusterStats) => c.objects, s.clusters) == s.objects
  {
    var l := s.clusters;
    forall i | 0 <= i < |l| ensures IsClusterOf(l[i], objects) { assert l[i] in l; }
    LinesSumUp((c: ClusterStats) => c.runs, RunsOf, objects, l);
    LinesSumUp((c: ClusterStats) => c.incomplete, IncompleteOf, objects, l);
    LinesSumUp((c: ClusterStats) => c.protected, ProtectedOf, objects, l);
    LinesSumUp((c: ClusterStats) => c.logical, LogicalOf, objects, l);
    LinesSumUp((c: ClusterStats) => c.objects, One, objects, l);
  }

  // ---------------------------------------------------------------- merging changes no total

  /** Stats with no run count nothing, as NewObjectStats leaves them. */
  ghost predicate Sound(o: ObjectStats) {
    var t := o.tally;
    Holds(o) || (t.protected == 0 && t.logical == 0 && t.stored == 0 && t.first == ZERO_TIME && t.last == ZERO_TIME)
  }

  lemma CountedIsSound(o: ObjectStats, runs: seq<Run>)
    requires o.tally == Count(runs)
    ensures Sound(o)
  {
    CountMeansSums(NOTHING, runs);
  }

  /** A figure merging joins with the operation, nothing being nothing. */
  ghost predicate Joins(op: (int, int) -> int, f: Figure) {
    Sums(op) && op(0, 0) == 0 && forall m, o :: JoinsAt(op, f, m, o)
  }

  ghost predicate JoinsAt(op: (int, int) -> int, f: Figure, m: ObjectStats, o: ObjectStats) {
    f(MergeTwo(m, o)) == op(f(m), f(o))
  }

  ghost predicate Silent(f: Figure, l: seq<ObjectStats>) {
    forall o :: o in l && !Holds(o) ==> f(o) == 0
  }

  ghost predicate NoSlashInClusters(l: seq<ObjectStats>) {
    forall o :: o in l ==> !Has(o.clusterID, '/')
  }

  lemma MergeTwoHolds(m: ObjectStats, o: ObjectStats)
    ensures Holds(MergeTwo(m, o)) <==> Holds(m) || Holds(o)
    ensures MergeTwo(m, o).clusterID == m.clusterID
  {
  }

  lemma JoinedWeigh(op: (int, int) -> int, f: Figure, m: ObjectStats, o: ObjectStats, only: Option<string>)
    requires Joins(op, f) && Silent(f, [m, o]) && (only.Some? ==> m.clusterID == o.clusterID)
    ensures Weight(f, MergeTwo(m, o), only) == op(Weight(f, m, only), Weight(f, o, only))
    ensures !Holds(MergeTwo(m, o)) ==> f(MergeTwo(m, o)) == 0
  {
    MergeTwoHolds(m, o);
    assert m in [m, o] && o in [m, o] && JoinsAt(op, f, m, o);
  }

  lemma MergeIntoGathers(op: (int, int) -> int, f: Figure, l: seq<ObjectStats>, o: ObjectStats, only: Option<string>)
    requires Joins(op, f) && Silent(f, l) && Silent(f, [o])
    requires only.Some? ==> NoSlashInClusters(l) && !Has(o.clusterID, '/')
    ensures Gather(op, f, MergeInto(l, o), only) == Gather(op, f, l + [o], only)
    ensures Silent(f, MergeInto(l, o))
    ensures only.Some? ==> NoSlashInClusters(MergeInto(l, o))
  {
    var i, w := KeyIndex(l, o.Key()), Weights(f, l, only);
    assert o in [o];
    if i < |l| {
      if only.Some? { KeyIsTheObject(l[i], o); }
      JoinedWeigh(op, f, l[i], o, only);
      MergeTwoHolds(l[i], o);
      assert Weights(f, MergeInto(l, o), only) == w[i := op(w[i], Weight(f, o, only))];
      FoldReplaced(op, 0, w, i, Weight(f, o, only));
      GatherNext(op, f, l, o, only);
    }
  }

  lemma SamePrefix(op: (int, int) -> int, f: Figure, a: seq<ObjectStats>, b: seq<ObjectStats>, rest: seq<ObjectStats>,
                   only: Option<string>)
    requires Gather(op, f, a, only) == Gather(op, f, b, only)
    ensures Gather(op, f, a + rest, only) == Gather(op, f, b + rest, only)
  {
    assert Weights(f, a + rest, only) == Weights(f, a, only) + Weights(f, rest, only);
    assert Weights(f, b + rest, only) == Weights(f, b, only) + Weights(f, rest, only);
    FoldSamePrefix(op, 0, Weights(f, a, only), Weights(f, b, only), Weights(f, rest, only));
  }

  lemma {:induction false} MergeAllGathers(op: (int, int) -> int, f: Figure, l: seq<ObjectStats>,
                                           objects: seq<ObjectStats>, only: Option<string>)
    requires Joins(op, f) && Silent(f, l) && Silent(f, objects)
    requires only.Some? ==> NoSlashInClusters(l) && NoSlashInClusters(objects)
    ensures Gather(op, f, MergeAll(l, objects), only) == Gather(op, f, l + objects, only)
    decreases |objects|
  {
    if objects == [] {
      assert l + objects == l;
    } else {
      var o, rest := objects[0], objects[1..];
      var next, l' := MergeInto(l, o), l + [o];
      SilentParts(f, objects);
      MergeIntoGathers(op, f, l, o, only);
      MergeAllGathers(op, f, next, rest, only);
      SamePrefix(op, f, next, l', rest, only);
      Regroup(l, objects);
    }
  }

  lemma SilentParts(f: Figure, objects: seq<ObjectStats>)
    requires objects != []
    ensures Silent(f, objects) ==> Silent(f, [objects[0]]) && Silent(f, objects[1..])
    ensures NoSlashInClusters(objects) ==> !Has(objects[0].clusterID, '/') && NoSlashInClusters(objects[1..])
  {
  }

  lemma Regroup<T>(a: seq<T>, b: seq<T>)
    requires b != []
    ensures a + b == (a + [b[0]]) + b[1..]
  {
  }

  lemma AddSums()
    ensures Sums(Add)
  {
  }

  /** Each figure is merged with its operation. */
  lemma FiguresJoin(m: ObjectStats, o: ObjectStats)
    ensures JoinsAt(Add, RunsOf, m, o) && JoinsAt(Add, IncompleteOf, m, o) && JoinsAt(Add, ProtectedOf, m, o)
    ensures JoinsAt(Add, LogicalOf, m, o) && JoinsAt(Add, StoredOf, m, o)
    ensures JoinsAt(Earlier, FirstOf, m, o) && JoinsAt(Later, LastOf, m, o)
  {
    MergeTwoIs(m, o);
  }

  lemma TimesSum()
    ensures Sums(Earlier) && Sums(Later)
  {
  }

  /** Merging changes no total, over the store or in a cluster: only how many objects there are. */
  lemma MergingKeepsTotals(objects: seq<ObjectStats>, only: Option<string>, t: Tally)
    requires forall o :: o in objects ==> Sound(o)
    requires only.Some? ==> NoSlashInClusters(objects)
    ensures IsTotal(t, MergeAll([], objects), only) <==> IsTotal(t, objects, only)
  {
    AddSums();
    TimesSum();
    forall m, o { FiguresJoin(m, o); }
    assert [] + objects == objects;
    MergeAllGathers(Add, RunsOf, [], objects, only);
    MergeAllGathers(Add, IncompleteOf, [], objects, only);
    MergeAllGathers(Add, ProtectedOf, [], objects, only);
    MergeAllGathers(Add, LogicalOf, [], objects, only);
    MergeAllGathers(Add, StoredOf, [], objects, only);
    MergeAllGathers(Earlier, FirstOf, [], objects, only);
    MergeAllGathers(Later, LastOf, [], objects, only);
  }

  /** So it is of the stats of counted runs. */
  lemma MergingCountedKeepsTotals(objects: seq<ObjectStats>, runs: seq<seq<Run>>, only: Option<string>, t: Tally)
    requires |objects| == |runs| && forall i :: 0 <= i < |objects| ==> objects[i].tally == Count(runs[i])
    requires only.Some? ==> NoSlashInClusters(objects)
    ensures IsTotal(t, MergeAll([], objects), only) <==> IsTotal(t, objects, only)
  {
    forall o | o in objects ensures Sound(o) {
      var i :| 0 <= i < |objects| && objects[i] == o;
      CountedIsSound(o, runs[i]);
    }
    MergingKeepsTotals(objects, only, t);
  }

  // ---------------------------------------------------------------- whether the stored bytes are told

  /** The object of the key has a completed run in one of the stats. */
  ghost predicate RunsAt(l: seq<ObjectStats>, k: string) {
    exists i :: 0 <= i < |l| && l[i].Key() == k && l[i].tally.runs > 0
  }

  /** One of the stats of the object tells its stored bytes. */
  ghost predicate ToldAt(l: seq<ObjectStats>, k: string) {
    exists i :: 0 <= i < |l| && l[i].Key() == k && l[i].tally.stored > 0
  }

  ghost predicate SizesNotNegative(l: seq<ObjectStats>) {
    forall i :: 0 <= i < |l| ==> l[i].tally.stored >= 0
  }

  lemma MergeIntoAt(l: seq<ObjectStats>, o: ObjectStats, k: string)
    requires SizesNotNegative(l) && o.tally.stored >= 0
    ensures RunsAt(MergeInto(l, o), k) <==> RunsAt(l, k) || RunsAt([o], k)
    ensures ToldAt(MergeInto(l, o), k) <==> ToldAt(l, k) || ToldAt([o], k)
    ensures SizesNotNegative(MergeInto(l, o))
  {
    var m, i := MergeInto(l, o), KeyIndex(l, o.Key());
    if i < |l| {
      MergeTwoIs(l[i], o);
      assert m[i].Key() == l[i].Key() == o.Key();
      if RunsAt(l, k) {
        var j :| 0 <= j < |l| && l[j].Key() == k && l[j].tally.runs > 0;
        assert m[j].Key() == k && m[j].tally.runs > 0;
      }
      if ToldAt(l, k) {
        var j :| 0 <= j < |l| && l[j].Key() == k && l[j].tally.stored > 0;
        assert m[j].Key() == k && m[j].tally.stored > 0;
      }
      if RunsAt([o], k) { assert m[i].tally.runs > 0; }
      if ToldAt([o], k) { assert m[i].tally.stored > 0; }
      OneAt(o, k);
    } else {
      ConcatAt(l, [o], k);
    }
  }

  lemma OneAt(o: ObjectStats, k: string)
    ensures RunsAt([o], k) <==> o.Key() == k && o.tally.runs > 0
    ensures ToldAt([o], k) <==> o.Key() == k && o.tally.stored > 0
  {
    assert [o][0] == o;
  }

  lemma ConcatAt(a: seq<ObjectStats>, b: seq<ObjectStats>, k: string)
    ensures RunsAt(a + b, k) <==> RunsAt(a, k) || RunsAt(b, k)
    ensures ToldAt(a + b, k) <==> ToldAt(a, k) || ToldAt(b, k)
  {
    var c := a + b;
    assert forall i :: 0 <= i < |a| ==> c[i] == a[i];
    assert forall i :: 0 <= i < |b| ==> c[|a| + i] == b[i];
  }

  lemma HeadAt(l: seq<ObjectStats>, k: string)
    requires l != []
    ensures RunsAt(l, k) <==> RunsAt([l[0]], k) || RunsAt(l[1..], k)
    ensures ToldAt(l, k) <==> ToldAt([l[0]], k) || ToldAt(l[1..], k)
    ensures SizesNotNegative(l) ==> l[0].tally.stored >= 0 && SizesNotNegative(l[1..])
  {
    ConcatAt([l[0]], l[1..], k);
    assert l == [l[0]] + l[1..];
  }

  lemma {:induction false} MergeAllAt(l: seq<ObjectStats>, objects: seq<ObjectStats>, k: string)
    requires SizesNotNegative(l) && SizesNotNegative(objects)
    ensures RunsAt(MergeAll(l, objects), k) <==> RunsAt(l, k) || RunsAt(objects, k)
    ensures ToldAt(MergeAll(l, objects), k) <==> ToldAt(l, k) || ToldAt(objects, k)
    ensures SizesNotNegative(MergeAll(l, objects))
    decreases |objects|
  {
    if objects == [] {
    } else {
      HeadAt(objects, k);
      MergeIntoAt(l, objects[0], k);
      MergeAllAt(MergeInto(l, objects[0]), objects[1..], k);
    }
  }

  lemma MergeIntoKeysOnce(l: seq<ObjectStats>, o: ObjectStats)
    requires KeysOnce(l)
    ensures KeysOnce(MergeInto(l, o))
  {
    var i := KeyIndex(l, o.Key());
    if i < |l| {
      MergeTwoIs(l[i], o);
      ReplacedKeys(l, i, MergeTwo(l[i], o));
    }
  }

  lemma {:induction false} MergeAllKeysOnce(l: seq<ObjectStats>, objects: seq<ObjectStats>)
    requires KeysOnce(l)
    ensures KeysOnce(MergeAll(l, objects))
    decreases |objects|
  {
    if objects == [] {
    } else {
      MergeIntoKeysOnce(l, objects[0]);
      MergeAllKeysOnce(MergeInto(l, objects[0]), objects[1..]);
    }
  }

  ghost predicate ToldOfAll(l: seq<ObjectStats>) {
    forall k :: RunsAt(l, k) ==> ToldAt(l, k)
  }

  lemma KnownOfKeysOnce(l: seq<ObjectStats>)
    requires KeysOnce(l) && SizesNotNegative(l)
    ensures StoredKnown(l) <==> ToldOfAll(l)
  {
    if StoredKnown(l) {
      forall k | RunsAt(l, k) ensures ToldAt(l, k) {
        var i :| 0 <= i < |l| && l[i].Key() == k && l[i].tally.runs > 0;
        assert Holds(l[i]) && l[i].tally.stored > 0;
      }
    }
    if ToldOfAll(l) {
      forall i | 0 <= i < |l| && Holds(l[i]) && l[i].tally.runs > 0 ensures l[i].tally.stored != 0 {
        assert RunsAt(l, l[i].Key());
        var j :| 0 <= j < |l| && l[j].Key() == l[i].Key() && l[j].tally.stored > 0;
        assert i == j;
      }
    }
  }

  /** Merged, the stored bytes are told exactly when every object with a completed run has a part telling them. */
  lemma ToldOnceMerged(objects: seq<ObjectStats>)
    requires SizesNotNegative(objects)
    ensures StoredKnown(MergeAll([], objects)) <==> ToldOfAll(objects)
  {
    var l := MergeAll([], objects);
    MergeAllKeysOnce([], objects);
    forall k ensures (RunsAt(l, k) <==> RunsAt(objects, k)) && (ToldAt(l, k) <==> ToldAt(objects, k)) &&
        SizesNotNegative(l) {
      MergeAllAt([], objects, k);
    }
    MergeAllAt([], objects, "");
    KnownOfKeysOnce(l);
  }

  /** Merging never hides the stored bytes, and may reveal them: a part not telling is summed with one that does. */
  lemma MergingMayTell(objects: seq<ObjectStats>, told: ObjectStats, untold: ObjectStats)
    requires SizesNotNegative(objects)
    requires told.Key() == untold.Key() && told.tally.runs > 0 && told.tally.stored > 0
    requires untold.tally.runs > 0 && untold.tally.stored == 0
    ensures StoredKnown(objects) ==> StoredKnown(MergeAll([], objects))
    ensures !StoredKnown([told, untold]) && StoredKnown(MergeAll([], [told, untold]))
  {
    ToldOnceMerged(objects);
    if StoredKnown(objects) {
      forall k | RunsAt(objects, k) ensures ToldAt(objects, k) {
        var i :| 0 <= i < |objects| && objects[i].Key() == k && objects[i].tally.runs > 0;
        assert Holds(objects[i]) && objects[i].tally.stored > 0;
      }
    }
    var l := [told, untold];
    assert Holds(l[1]);
    ToldOnceMerged(l);
    forall k | RunsAt(l, k) ensures ToldAt(l, k) { assert l[0].tally.stored > 0; }
  }
}
