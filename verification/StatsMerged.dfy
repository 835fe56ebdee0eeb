/** What MergeObjectStats makes of the stats of each object, wherever they stand in the lists it is given. */
module StatsMerged {
  import opened Names
  import opened Stats

  /** The stats of one key, in order. */
  ghost function OfKey(l: seq<ObjectStats>, k: string): (r: seq<ObjectStats>)
    ensures forall i :: 0 <= i < |r| ==> r[i].Key() == k
  {
    if l == [] then []
    else
      var n := |l| - 1;
      OfKey(l[..n], k) + if l[n].Key() == k then [l[n]] else []
  }

  lemma OfKeyNext(l: seq<ObjectStats>, o: ObjectStats, k: string)
    ensures OfKey(l + [o], k) == OfKey(l, k) + if o.Key() == k then [o] else []
  {
    assert (l + [o])[..|l|] == l;
  }

  lemma {:induction false} OfKeyConcat(a: seq<ObjectStats>, b: seq<ObjectStats>, k: string)
    ensures OfKey(a + b, k) == OfKey(a, k) + OfKey(b, k)
    decreases |b|
  {
    if b == [] {
      assert a + b == a;
    } else {
      var n := |b| - 1;
      assert a + b == (a + b[..n]) + [b[n]];
      OfKeyNext(a + b[..n], b[n], k);
      OfKeyConcat(a, b[..n], k);
    }
  }

  lemma {:induction false} NoneOfKey(l: seq<ObjectStats>, k: string)
    ensures OfKey(l, k) == [] <==> forall i :: 0 <= i < |l| ==> l[i].Key() != k
  {
    if l == [] {
    } else {
      var n := |l| - 1;
      NoneOfKey(l[..n], k);
      assert forall i :: 0 <= i < n ==> l[..n][i] == l[i];
    }
  }

  /** Merging stats of the key at their place leaves the stats of the others. */
  lemma OfKeyReplaced(l: seq<ObjectStats>, i: nat, x: ObjectStats, k: string)
    requires i < |l| && x.Key() == l[i].Key() && forall j :: 0 <= j < i ==> l[j].Key() != x.Key()
    ensures x.Key() != k ==> OfKey(l[i := x], k) == OfKey(l, k)
    ensures x.Key() == k ==> OfKey(l, k) != [] && OfKey(l, k)[0] == l[i] && OfKey(l[i := x], k) == OfKey(l, k)[0 := x]
  {
    var a, b := l[..i], l[i + 1..];
    assert l == a + [l[i]] + b && l[i := x] == a + [x] + b;
    OfKeyConcat(a + [l[i]], b, k);
    OfKeyConcat(a + [x], b, k);
    OfKeyNext(a, l[i], k);
    OfKeyNext(a, x, k);
    NoneOfKey(a, k);
  }

  lemma MergeIntoOfKey(l: seq<ObjectStats>, o: ObjectStats, k: string)
    ensures OfKey(MergeInto(l, o), k) == if o.Key() == k then MergeInto(OfKey(l, k), o) else OfKey(l, k)
  {
    var i := KeyIndex(l, o.Key());
    if i < |l| {
      MergeTwoIs(l[i], o);
      OfKeyReplaced(l, i, MergeTwo(l[i], o), k);
    } else {
      NoneOfKey(l, k);
      OfKeyNext(l, o, k);
    }
  }

  lemma MergeNext(l: seq<ObjectStats>, objects: seq<ObjectStats>, o: ObjectStats)
    ensures MergeAll(l, objects + [o]) == MergeInto(MergeAll(l, objects), o)
  {
    MergeAllConcat(l, objects, [o]);
    assert [o][1..] == [];
  }

  /** The stats of one object are merged as if the others were not there. */
  lemma {:induction false} MergeIsByKey(objects: seq<ObjectStats>, k: string)
    ensures OfKey(MergeAll([], objects), k) == MergeAll([], OfKey(objects, k))
  {
    if objects == [] {
    } else {
      var n := |objects| - 1;
      var init, o := objects[..n], objects[n];
      assert objects == init + [o];
      MergeIsByKey(init, k);
      MergeNext([], init, o);
      MergeIntoOfKey(MergeAll([], init), o, k);
      OfKeyNext(init, o, k);
      if o.Key() == k { MergeNext([], OfKey(init, k), o); } else { assert OfKey(init, k) + [] == OfKey(init, k); }
    }
  }

  // ---------------------------------------------------------------- what the stats of one object become

  /** What the parts count together: sums, the earliest of the first times that are one, the latest of the last. */
  ghost function Together(parts: seq<ObjectStats>): Tally {
    if parts == [] then NOTHING else Plus(Together(parts[..|parts| - 1]), parts[|parts| - 1].tally)
  }

  /** The path is that of the part with the latest run, the first of them if several have it. */
  ghost predicate IsPathOf(path: string, last: int, parts: seq<ObjectStats>) {
    exists i :: 0 <= i < |parts| && parts[i].path == path && parts[i].tally.last == last && IsLatestPart(parts, i)
  }

  ghost predicate IsLatestPart(parts: seq<ObjectStats>, i: int)
    requires 0 <= i < |parts|
  {
    && (forall j :: 0 <= j < |parts| ==> parts[j].tally.last <= parts[i].tally.last)
    && (forall j :: 0 <= j < i ==> parts[j].tally.last < parts[i].tally.last)
  }

  ghost predicate IsUpdateOf(t: int, parts: seq<ObjectStats>) {
    && (forall i :: 0 <= i < |parts| ==> parts[i].updatedAt <= t)
    && exists i :: 0 <= i < |parts| && parts[i].updatedAt == t
  }

  ghost function AllNodes(parts: seq<ObjectStats>): set<string> {
    set i, n | 0 <= i < |parts| && n in parts[i].nodes :: n
  }

  /** `m` is the merge of the parts of one object. */
  ghost predicate IsMerge(m: ObjectStats, parts: seq<ObjectStats>) {
    && parts != []
    && m.clusterID == parts[0].clusterID && m.clusterName == parts[0].clusterName && m.objectID == parts[0].objectID
    && m.tally == Together(parts) && IsPathOf(m.path, m.tally.last, parts) && IsUpdateOf(m.updatedAt, parts)
    && (Ordered(parts[0].nodes) ==> Ordered(m.nodes) && Elements(m.nodes) == AllNodes(parts))
  }

  lemma OneIsItsMerge(o: ObjectStats)
    ensures IsMerge(o, [o])
  {
    var parts := [o];
    assert parts[..0] == [];
    PlusLaws(o.tally, NOTHING, NOTHING);
    assert parts[0].path == o.path && IsLatestPart(parts, 0) && parts[0].updatedAt == o.updatedAt;
    forall n | n in Elements(o.nodes) ensures n in AllNodes(parts) { assert n in parts[0].nodes; }
  }

  lemma PathNext(m: ObjectStats, parts: seq<ObjectStats>, o: ObjectStats)
    requires IsPathOf(m.path, m.tally.last, parts)
    ensures IsPathOf(MergeTwo(m, o).path, MergeTwo(m, o).tally.last, parts + [o])
  {
    var i :| 0 <= i < |parts| && parts[i].path == m.path && parts[i].tally.last == m.tally.last
             && IsLatestPart(parts, i);
    var l := parts + [o];
    assert l[i] == parts[i] && l[|parts|] == o;
    if o.tally.last > m.tally.last { assert IsLatestPart(l, |parts|); } else { assert IsLatestPart(l, i); }
  }

  lemma UpdateNext(t: int, parts: seq<ObjectStats>, o: ObjectStats)
    requires IsUpdateOf(t, parts)
    ensures IsUpdateOf(Later(t, o.updatedAt), parts + [o])
  {
    var i :| 0 <= i < |parts| && parts[i].updatedAt == t;
    var l := parts + [o];
    assert l[i] == parts[i] && l[|parts|] == o;
  }

  lemma AllNodesNext(parts: seq<ObjectStats>, o: ObjectStats)
    ensures AllNodes(parts + [o]) == AllNodes(parts) + Elements(o.nodes)
  {
    var l := parts + [o];
    forall n | n in AllNodes(parts) ensures n in AllNodes(l) {
      var i :| 0 <= i < |parts| && n in parts[i].nodes;
      assert n in l[i].nodes;
    }
    forall n | n in o.nodes ensures n in AllNodes(l) { assert n in l[|parts|].nodes; }
  }

  lemma MergeOneMore(m: ObjectStats, parts: seq<ObjectStats>, o: ObjectStats)
    requires IsMerge(m, parts)
    ensures IsMerge(MergeTwo(m, o), parts + [o])
  {
    var l := parts + [o];
    assert l[0] == parts[0] && l[..|parts|] == parts;
    PathNext(m, parts, o);
    UpdateNext(m.updatedAt, parts, o);
    AllNodesNext(parts, o);
    if Ordered(m.nodes) { MergeTwoNodes(m, o); }
  }

  lemma {:induction false} MergeOfOneKey(parts: seq<ObjectStats>, k: string)
    requires parts != [] && forall i :: 0 <= i < |parts| ==> parts[i].Key() == k
    ensures var l := MergeAll([], parts); |l| == 1 && l[0].Key() == k && IsMerge(l[0], parts)
  {
    var n := |parts| - 1;
    var init, o := parts[..n], parts[n];
    assert parts == init + [o];
    MergeNext([], init, o);
    if n == 0 {
      OneIsItsMerge(o);
    } else {
      MergeOfOneKey(init, k);
      var m := MergeAll([], init)[0];
      assert MergeAll([], init) == [m];
      MergeTwoIs(m, o);
      MergeOneMore(m, init, o);
    }
  }

  /** Every object recorded somewhere has one merged record, which is the merge of its own, and no other object has. */
  lemma MergedExactly(objects: seq<ObjectStats>, k: string)
    ensures var l := OfKey(MergeAll([], objects), k);
            if OfKey(objects, k) == [] then l == [] else |l| == 1 && IsMerge(l[0], OfKey(objects, k))
  {
    MergeIsByKey(objects, k);
    if OfKey(objects, k) != [] { MergeOfOneKey(OfKey(objects, k), k); }
  }

  // ---------------------------------------------------------------- the order of the objects

  /** Each key of `l` is met among the objects, and the first places they are met at are in the order of `l`. */
  ghost predicate InOrderMet(l: seq<ObjectStats>, objects: seq<ObjectStats>) {
    && (forall a :: 0 <= a < |l| ==> KeyIndex(objects, l[a].Key()) < |objects|)
    && (forall a, b :: 0 <= a < b < |l| ==> KeyIndex(objects, l[a].Key()) < KeyIndex(objects, l[b].Key()))
  }

  lemma MetNext(objects: seq<ObjectStats>, o: ObjectStats, k: string)
    ensures var n := KeyIndex(objects, k);
            n < |objects| || o.Key() == k ==> KeyIndex(objects + [o], k) == n
  {
    var l := objects + [o];
    assert l[|objects|] == o && forall j :: 0 <= j < |objects| ==> l[j] == objects[j];
  }

  lemma MergeKeepsOrder(l: seq<ObjectStats>, objects: seq<ObjectStats>, o: ObjectStats)
    requires InOrderMet(l, objects)
    requires KeyIndex(l, o.Key()) == |l| ==> KeyIndex(objects, o.Key()) == |objects|
    ensures InOrderMet(MergeInto(l, o), objects + [o])
  {
    var m, i := MergeInto(l, o), KeyIndex(l, o.Key());
    if i < |l| { MergeTwoIs(l[i], o); }
    forall a | 0 <= a < |m|
      ensures KeyIndex(objects + [o], m[a].Key()) == if a < |l| then KeyIndex(objects, l[a].Key()) else |objects|
    {
      MetNext(objects, o, m[a].Key());
    }
  }

  /** The merged records are in the order their objects were first met. */
  lemma {:induction false} MergedInOrder(objects: seq<ObjectStats>)
    ensures InOrderMet(MergeAll([], objects), objects)
  {
    if objects == [] {
    } else {
      var n := |objects| - 1;
      var init, o := objects[..n], objects[n];
      assert objects == init + [o];
      var l, k := MergeAll([], init), o.Key();
      MergedInOrder(init);
      MergeNext([], init, o);
      NoneOfKey(l, k);
      MergedExactly(init, k);
      NoneOfKey(init, k);
      MergeKeepsOrder(l, init, o);
    }
  }

  // ---------------------------------------------------------------- the lists

  /** How many stats the first `n` lists hold. */
  ghost function Before(lists: seq<seq<ObjectStats>>, n: nat): nat
    requires n <= |lists|
  {
    if n == 0 then 0 else Before(lists, n - 1) + |lists[n - 1]|
  }

  lemma {:induction false} BeforeTail(lists: seq<seq<ObjectStats>>, n: nat)
    requires 0 < n <= |lists|
    ensures Before(lists, n) == |lists[0]| + Before(lists[1..], n - 1)
    decreases n
  {
    if n > 1 { BeforeTail(lists, n - 1); }
  }

  lemma {:induction false} TakenInAll(lists: seq<seq<ObjectStats>>)
    ensures |Flatten(lists)| == Before(lists, |lists|)
  {
    if lists == [] {
    } else {
      TakenInAll(lists[1..]);
      BeforeTail(lists, |lists|);
    }
  }

  /** The stats are taken list by list, each in order, and none is left. */
  lemma {:induction false} TakenInOrder(lists: seq<seq<ObjectStats>>, n: nat, i: nat)
    requires n < |lists| && i < |lists[n]|
    ensures |Flatten(lists)| == Before(lists, |lists|)
    ensures Before(lists, n) + i < |Flatten(lists)| && Flatten(lists)[Before(lists, n) + i] == lists[n][i]
    decreases n
  {
    TakenInAll(lists);
    if n > 0 {
      var rest := lists[1..];
      TakenInOrder(rest, n - 1, i);
      BeforeTail(lists, n);
    }
  }
}
