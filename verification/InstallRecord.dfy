/**
 The record of the files the install lines of a resource hold, and their removal (core/datarecv/install_files.go).

 The record lists the files of a line sorted and once each, and reads the list as a set: it is a set here.
 The head the paths are relative to is one tree, and two paths recorded are two files of it. Reading and
 writing the record itself goes through.
 */
module InstallRecord {
  type Line = string
  type Path = string

  /** The size and the modification time of a file. */
  datatype Stamp = Stamp(size: int, mtime: int)

  datatype Entry = Directory | Regular(stamp: Stamp)

  /** What the record and the tree hold: files by line, stamps by path, and the tree of the head. */
  datatype Disk = Disk(lines: map<Line, set<Path>>, stamps: map<Path, Stamp>, tree: map<Path, Entry>)

  /** What a call finds: no head, a head it can not open, paths it can not look at, paths it can not remove. */
  datatype Env = Env(noHead: bool, closed: bool, unreadable: set<Path>, stuck: set<Path>)

  /** What comes of the removal of a path: nothing to do, to be tried again, or removed. */
  datatype Outcome = Left | Failed | Removed

  function OutcomeOf(env: Env, stamps: map<Path, Stamp>, tree: map<Path, Entry>, p: Path): Outcome {
    if env.noHead then Left
    else if env.closed || p in env.unreadable then Failed
    else if p !in tree || tree[p].Directory? then Left
    else if p !in stamps || stamps[p] != tree[p].stamp then Left
    else if p in env.stuck then Failed
    else Removed
  }

  /** The path can be looked at: there is a head, it opens, and the path can be read. */
  ghost predicate InSight(env: Env, p: Path) {
    !env.noHead && !env.closed && p !in env.unreadable
  }

  /** There is a head, and it does not open, or the path can not be looked at. */
  ghost predicate OutOfSight(env: Env, p: Path) {
    !env.noHead && (env.closed || p in env.unreadable)
  }

  /** The file at the path is there, no directory, and what it was when its stamp was taken. */
  ghost predicate AsInstalled(d: Disk, p: Path) {
    p in d.tree && p in d.stamps && d.tree[p] == Regular(d.stamps[p])
  }

  /** What each outcome comes of. */
  ghost predicate OutcomeMeans(env: Env, d: Disk, p: Path) {
    var o := OutcomeOf(env, d.stamps, d.tree, p);
    && (o == Removed <==> InSight(env, p) && AsInstalled(d, p) && p !in env.stuck)
    && (o == Failed <==> OutOfSight(env, p) || (InSight(env, p) && AsInstalled(d, p) && p in env.stuck))
    && (o == Left <==> env.noHead || (InSight(env, p) && !AsInstalled(d, p)))
  }

  lemma OutcomeIs(env: Env, d: Disk, p: Path)
    ensures OutcomeMeans(env, d, p)
  {
  }

  ghost function With(env: Env, d: Disk, paths: set<Path>, o: Outcome): set<Path> {
    set p | p in paths && OutcomeOf(env, d.stamps, d.tree, p) == o
  }

  predicate HeldByOther(lines: map<Line, set<Path>>, id: Line, p: Path) {
    exists other :: other in lines && other != id && p in lines[other]
  }

  ghost predicate Recorded(lines: map<Line, set<Path>>, p: Path) {
    exists id :: id in lines && p in lines[id]
  }

  function FilesOf(lines: map<Line, set<Path>>, id: Line): set<Path> {
    if id in lines then lines[id] else {}
  }

  // ---------------------------------------------------------------- what the two calls do

  ghost function Stale(d: Disk, id: Line, held: set<Path>): set<Path> {
    set p | p in FilesOf(d.lines, id) && p !in held && !HeldByOther(d.lines, id, p)
  }

  /** The files of `held` a stamp is taken of. */
  ghost function Stamped(env: Env, tree: map<Path, Entry>, held: set<Path>): map<Path, Stamp> {
    map p | p in held && !env.noHead && !env.closed && p !in env.unreadable && p in tree && tree[p].Regular? ::
        tree[p].stamp
  }

  /** After a run of the line `id`, which holds the files `held` now. */
  ghost function PrunedLine(env: Env, d: Disk, id: Line, held: set<Path>): Disk {
    var stale := Stale(d, id, held);
    var failed := With(env, d, stale, Failed);
    var tree := d.tree - With(env, d, stale, Removed);
    Disk(if held + failed == {} then d.lines - {id} else d.lines[id := held + failed],
         d.stamps + Stamped(env, tree, held) - (stale - failed),
         tree)
  }

  /** After one recorded line is looked at, which is left alone when it is configured still. */
  ghost function Visited(env: Env, d: Disk, ids: set<Line>, id: Line): Disk {
    if id in ids || id !in d.lines then d
    else
      var stale := Stale(d, id, {});
      var failed := With(env, d, stale, Failed);
      Disk(if failed == {} then d.lines - {id} else d.lines[id := failed],
           d.stamps - (stale - failed),
           d.tree - With(env, d, stale, Removed))
  }

  /** After the recorded lines are looked at in some order, a line recorded again meanwhile perhaps more than once. */
  ghost function PrunedLines(env: Env, d: Disk, ids: set<Line>, visits: seq<Line>): Disk {
    if visits == [] then d
    else Visited(env, PrunedLines(env, d, ids, visits[..|visits| - 1]), ids, visits[|visits| - 1])
  }

  // ---------------------------------------------------------------- the calls

  class Recorder {
    var lines: map<Line, set<Path>>
    var stamps: map<Path, Stamp>
    var tree: map<Path, Entry>

    ghost function Now(): Disk
      reads this
    {
      Disk(lines, stamps, tree)
    }

    constructor (tree: map<Path, Entry>)
      ensures Now() == Disk(map[], map[], tree)
    {
      this.lines, this.stamps, this.tree := map[], map[], tree;
    }

    /** Removes the files at the paths while they are the ones installed. */
    method RemoveInstalled(env: Env, paths: set<Path>) returns (removed: set<Path>, failed: set<Path>)
      modifies this`tree
      ensures removed == With(env, old(Now()), paths, Removed)
      ensures failed == With(env, old(Now()), paths, Failed)
      ensures tree == old(tree) - removed
      ensures forall p :: p in removed <==>
                p in paths && InSight(env, p) && AsInstalled(old(Now()), p) && p !in env.stuck
      ensures forall p :: p in failed <==>
                p in paths && (OutOfSight(env, p) || (InSight(env, p) && AsInstalled(old(Now()), p) && p in env.stuck))
    {
      removed, failed := {}, {};
      if env.noHead {
        forall p ensures OutcomeMeans(env, old(Now()), p) { OutcomeIs(env, old(Now()), p); }
        return;
      }
      if env.closed {
        forall p ensures OutcomeMeans(env, old(Now()), p) { OutcomeIs(env, old(Now()), p); }
        return {}, paths;
      }
      var todo := paths;
      while todo != {}
        invariant todo <= paths
        invariant removed == With(env, old(Now()), paths - todo, Removed)
        invariant failed == With(env, old(Now()), paths - todo, Failed)
        invariant tree == old(tree) - removed
        decreases todo
      {
        var p :| p in todo;
        todo := todo - {p};
        assert p in tree <==> p in old(tree);
        if p in env.unreadable {
          failed := failed + {p};
        } else if p !in tree || tree[p].Directory? {
        } else if p !in stamps || stamps[p] != tree[p].stamp {
        } else if p in env.stuck {
          failed := failed + {p};
        } else {
          tree := tree - {p};
          removed := removed + {p};
        }
      }
      assert paths - todo == paths;
      forall p ensures OutcomeMeans(env, old(Now()), p) { OutcomeIs(env, old(Now()), p); }
    }

    /** Records what the files the line holds are. */
    method StampHeld(env: Env, held: set<Path>)
      modifies this`stamps
      ensures stamps == old(stamps) + Stamped(env, tree, held)
    {
      if env.noHead || env.closed {
        return;
      }
      var todo := held;
      while todo != {}
        invariant todo <= held
        invariant stamps == old(stamps) + Stamped(env, tree, held - todo)
        decreases todo
      {
        var p :| p in todo;
        todo := todo - {p};
        if p in env.unreadable || p !in tree || tree[p].Directory? {
          continue;
        }
        stamps := stamps[p := tree[p].stamp];
      }
      assert held - todo == held;
    }

    method PruneInstallLine(env: Env, id: Line, held: set<Path>) returns (removed: set<Path>)
      modifies this
      ensures Now() == PrunedLine(env, old(Now()), id, held)
      ensures removed == With(env, old(Now()), Stale(old(Now()), id, held), Removed)
      ensures forall p :: p in removed <==>
                && p in FilesOf(old(lines), id) && p !in held && !HeldByOther(old(lines), id, p)
                && InSight(env, p) && AsInstalled(old(Now()), p) && p !in env.stuck
    {
      var stale := set p | p in FilesOf(lines, id) && p !in held && !HeldByOther(lines, id, p);
      var failed;
      removed, failed := RemoveInstalled(env, stale);
      StampHeld(env, held);
      stamps := stamps - (stale - failed);
      if held + failed == {} {
        lines := lines - {id};
      } else {
        lines := lines[id := held + failed];
      }
    }

    /** Drops a line no longer configured, but for the files it failed to remove. */
    method DropLine(env: Env, ids: set<Line>, id: Line) returns (removed: set<Path>)
      requires id in lines && id !in ids
      modifies this
      ensures Now() == Visited(env, old(Now()), ids, id)
      ensures removed == With(env, old(Now()), Stale(old(Now()), id, {}), Removed)
    {
      var files := lines[id];
      lines := lines - {id};
      var stale := set p | p in files && !HeldByOther(lines, id, p);
      forall p ensures HeldByOther(lines, id, p) <==> HeldByOther(old(lines), id, p) {
        HeldByOtherWithout(old(lines), id, p);
      }
      assert stale == Stale(old(Now()), id, {});
      var failed;
      removed, failed := RemoveInstalled(env, stale);
      stamps := stamps - (stale - failed);
      if failed != {} {
        lines := lines[id := failed];
      }
      assert lines == Visited(env, old(Now()), ids, id).lines;
    }

    /** Ranges over the lines recorded, in the order of `visits`. */
    method PruneInstallLines(env: Env, ids: set<Line>, visits: seq<Line>) returns (removed: map<Line, set<Path>>)
      modifies this
      ensures Now() == PrunedLines(env, old(Now()), ids, visits)
      ensures removed == RemovedBy(env, old(Now()), ids, visits)
    {
      removed := map[];
      for i := 0 to |visits|
        invariant Now() == PrunedLines(env, old(Now()), ids, visits[..i])
        invariant removed == RemovedBy(env, old(Now()), ids, visits[..i])
      {
        assert visits[..i + 1][..i] == visits[..i];
        var id := visits[i];
        if id in ids || id !in lines {
          continue;
        }
        var l := DropLine(env, ids, id);
        if l != {} {
          removed := removed[id := l];
        }
      }
      assert visits[..|visits|] == visits;
    }
  }

  lemma HeldByOtherWithout(lines: map<Line, set<Path>>, id: Line, p: Path)
    ensures HeldByOther(lines - {id}, id, p) <==> HeldByOther(lines, id, p)
  {
    if HeldByOther(lines, id, p) {
      var other :| other in lines && other != id && p in lines[other];
      assert other in lines - {id};
    }
  }

  /** The files removed, by the line whose visit removed them. */
  ghost function RemovedBy(env: Env, d: Disk, ids: set<Line>, visits: seq<Line>): map<Line, set<Path>> {
    if visits == [] then map[]
    else
      var n := |visits| - 1;
      var before, id := PrunedLines(env, d, ids, visits[..n]), visits[n];
      var m := RemovedBy(env, d, ids, visits[..n]);
      if id in ids || id !in before.lines then m
      else
        var l := With(env, before, Stale(before, id, {}), Removed);
        if l != {} then m[id := l] else m
  }

  // ---------------------------------------------------------------- the lines gone, in any order

  ghost predicate HeldConfigured(d: Disk, ids: set<Line>, p: Path) {
    exists id :: id in d.lines && id in ids && p in d.lines[id]
  }

  ghost predicate HeldUnconfigured(d: Disk, ids: set<Line>, p: Path) {
    exists id :: id in d.lines && id !in ids && p in d.lines[id]
  }

  /** A line gone held the file, and no line configured holds it. */
  ghost predicate Doomed(d: Disk, ids: set<Line>, p: Path) {
    HeldUnconfigured(d, ids, p) && !HeldConfigured(d, ids, p)
  }

  /** A line gone not looked at yet holds the file. */
  ghost predicate Awaited(d: Disk, ids: set<Line>, seen: set<Line>, p: Path) {
    exists id :: id in d.lines && id !in ids && id !in seen && p in d.lines[id]
  }

  ghost function Fate(env: Env, d: Disk, p: Path): Outcome {
    OutcomeOf(env, d.stamps, d.tree, p)
  }

  ghost predicate SameTree(a: Disk, b: Disk, p: Path) {
    (p in a.tree <==> p in b.tree) && (p in a.tree ==> a.tree[p] == b.tree[p])
  }

  ghost predicate SameStamp(a: Disk, b: Disk, p: Path) {
    (p in a.stamps <==> p in b.stamps) && (p in a.stamps ==> a.stamps[p] == b.stamps[p])
  }

  /** Where a file is after the lines `seen` were looked at, `d` being the start and `t` now. */
  ghost predicate PathHolds(env: Env, d: Disk, ids: set<Line>, t: Disk, seen: set<Line>, p: Path) {
    if !Doomed(d, ids, p) || Awaited(d, ids, seen, p) then SameTree(t, d, p) && SameStamp(t, d, p)
    else
      match Fate(env, d, p)
      case Removed => p !in t.tree && p !in t.stamps
      case Left => SameTree(t, d, p) && p !in t.stamps
      case Failed => SameTree(t, d, p) && SameStamp(t, d, p) && HeldUnconfigured(t, ids, p)
  }

  /** A file a line gone and looked at still records: its removal failed, and the line is alone with it. */
  ghost predicate KeptForLater(env: Env, d: Disk, ids: set<Line>, t: Disk, id: Line, p: Path) {
    p in FilesOf(d.lines, id) && Doomed(d, ids, p) && Fate(env, d, p) == Failed && !HeldByOther(t.lines, id, p)
  }

  ghost predicate LinesHold(env: Env, d: Disk, ids: set<Line>, t: Disk, seen: set<Line>) {
    && t.lines.Keys <= d.lines.Keys
    && (forall id :: id in d.lines && (id in ids || id !in seen) ==> id in t.lines && t.lines[id] == d.lines[id])
    && (forall id, p :: id in t.lines && id !in ids && id in seen && p in t.lines[id] ==>
        KeptForLater(env, d, ids, t, id, p))
  }

  ghost predicate VisitInv(env: Env, d: Disk, ids: set<Line>, t: Disk, seen: set<Line>) {
    LinesHold(env, d, ids, t, seen) && forall p :: PathHolds(env, d, ids, t, seen, p)
  }

  /** What a line gone is about to remove is doomed, as it was at the start, and no other line awaits it. */
  lemma StaleIsDoomed(env: Env, d: Disk, ids: set<Line>, t: Disk, seen: set<Line>, id: Line, p: Path)
    requires VisitInv(env, d, ids, t, seen) && id in t.lines && id !in ids && p in Stale(t, id, {})
    ensures Doomed(d, ids, p) && !Awaited(d, ids, seen + {id}, p)
    ensures SameTree(t, d, p) && SameStamp(t, d, p) && p in d.lines[id]
    ensures id in seen ==> Fate(env, d, p) == Failed && !Awaited(d, ids, seen, p)
    ensures id !in seen ==> Awaited(d, ids, seen, p)
  {
    assert PathHolds(env, d, ids, t, seen, p);
    if id in seen {
      assert KeptForLater(env, d, ids, t, id, p);
    } else {
      assert p in d.lines[id];
    }
  }

  /** A doomed file another line holds is left to a line not looked at yet. */
  lemma NotStaleIsAwaited(env: Env, d: Disk, ids: set<Line>, t: Disk, seen: set<Line>, id: Line, p: Path)
    requires VisitInv(env, d, ids, t, seen) && id in t.lines && id !in ids
    requires p in t.lines[id] && p !in Stale(t, id, {}) && Doomed(d, ids, p)
    ensures id !in seen && Awaited(d, ids, seen + {id}, p)
  {
    var other :| other in t.lines && other != id && p in t.lines[other];
    assert HeldByOther(t.lines, other, p);
    assert other in d.lines && p in d.lines[other];
  }

  lemma VisitPath(env: Env, d: Disk, ids: set<Line>, t: Disk, seen: set<Line>, id: Line, p: Path)
    requires VisitInv(env, d, ids, t, seen) && id in t.lines && id !in ids
    ensures PathHolds(env, d, ids, Visited(env, t, ids, id), seen + {id}, p)
  {
    var u := Visited(env, t, ids, id);
    assert PathHolds(env, d, ids, t, seen, p);
    if p in Stale(t, id, {}) {
      StaleIsDoomed(env, d, ids, t, seen, id, p);
      assert Fate(env, t, p) == Fate(env, d, p);
      if Fate(env, d, p) == Failed { assert id in u.lines && p in u.lines[id]; }
    } else {
      assert SameTree(u, t, p) && SameStamp(u, t, p);
      if Doomed(d, ids, p) {
        if p in t.lines[id] {
          NotStaleIsAwaited(env, d, ids, t, seen, id, p);
          assert Awaited(d, ids, seen, p);
        } else {
          AwaitedWithout(d, ids, seen, id, p, t);
          if HeldUnconfigured(t, ids, p) {
            var other :| other in t.lines && other !in ids && p in t.lines[other];
            assert other in u.lines && p in u.lines[other];
          }
        }
      }
    }
  }

  lemma AwaitedWithout(d: Disk, ids: set<Line>, seen: set<Line>, id: Line, p: Path, t: Disk)
    requires id in t.lines && p !in t.lines[id]
    requires id in d.lines && id !in ids && id !in seen ==> t.lines[id] == d.lines[id]
    ensures Awaited(d, ids, seen, p) <==> Awaited(d, ids, seen + {id}, p)
  {
    if Awaited(d, ids, seen, p) {
      var other :| other in d.lines && other !in ids && other !in seen && p in d.lines[other];
      assert other != id;
    }
  }

  lemma FewerHolders(a: map<Line, set<Path>>, b: map<Line, set<Path>>, id: Line, p: Path)
    requires forall x :: x in a ==> x in b && a[x] <= b[x]
    ensures HeldByOther(a, id, p) ==> HeldByOther(b, id, p)
  {
  }

  lemma VisitLines(env: Env, d: Disk, ids: set<Line>, t: Disk, seen: set<Line>, id: Line)
    requires VisitInv(env, d, ids, t, seen) && id in t.lines && id !in ids
    ensures LinesHold(env, d, ids, Visited(env, t, ids, id), seen + {id})
  {
    var u := Visited(env, t, ids, id);
    forall x, p | x in u.lines && x !in ids && x in seen + {id} && p in u.lines[x]
      ensures KeptForLater(env, d, ids, u, x, p)
    {
      if x == id {
        StaleIsDoomed(env, d, ids, t, seen, id, p);
        assert Fate(env, t, p) == Fate(env, d, p);
        assert !HeldByOther(t.lines, id, p);
      } else {
        assert KeptForLater(env, d, ids, t, x, p);
      }
      FewerHolders(u.lines, t.lines, x, p);
    }
  }

  lemma VisitKeeps(env: Env, d: Disk, ids: set<Line>, t: Disk, seen: set<Line>, id: Line)
    requires VisitInv(env, d, ids, t, seen)
    ensures VisitInv(env, d, ids, Visited(env, t, ids, id), seen + {id})
  {
    var u := Visited(env, t, ids, id);
    if id in ids || id !in t.lines {
      forall p ensures PathHolds(env, d, ids, t, seen + {id}, p) {
        assert PathHolds(env, d, ids, t, seen, p);
        assert Awaited(d, ids, seen, p) <==> Awaited(d, ids, seen + {id}, p);
      }
    } else {
      VisitLines(env, d, ids, t, seen, id);
      forall p ensures PathHolds(env, d, ids, u, seen + {id}, p) { VisitPath(env, d, ids, t, seen, id, p); }
    }
  }

  ghost function Seen(visits: seq<Line>): set<Line> {
    set id | id in visits
  }

  lemma SeenNext(visits: seq<Line>)
    requires visits != []
    ensures Seen(visits) == Seen(visits[..|visits| - 1]) + {visits[|visits| - 1]}
  {
    assert visits == visits[..|visits| - 1] + [visits[|visits| - 1]];
  }

  lemma {:induction false} VisitsKeep(env: Env, d: Disk, ids: set<Line>, visits: seq<Line>)
    ensures VisitInv(env, d, ids, PrunedLines(env, d, ids, visits), Seen(visits))
  {
    if visits == [] {
      forall p | Doomed(d, ids, p) ensures Awaited(d, ids, {}, p) {
        var id :| id in d.lines && id !in ids && p in d.lines[id];
      }
    } else {
      var n := |visits| - 1;
      VisitsKeep(env, d, ids, visits[..n]);
      VisitKeeps(env, d, ids, PrunedLines(env, d, ids, visits[..n]), Seen(visits[..n]), visits[n]);
      SeenNext(visits);
    }
  }

  // ---------------------------------------------------------------- which visit removed what

  /** Every file removed so far is in the list of one line. */
  ghost predicate RemovedHolds(env: Env, d: Disk, ids: set<Line>, seen: set<Line>, m: map<Line, set<Path>>) {
    && m.Keys <= seen
    && (forall id, p :: id in m && p in m[id] ==>
          Doomed(d, ids, p) && !Awaited(d, ids, seen, p) && Fate(env, d, p) == Removed)
    && (forall p :: Doomed(d, ids, p) && !Awaited(d, ids, seen, p) && Fate(env, d, p) == Removed ==> Listed(m, p))
    && (forall x, y :: x in m && y in m && x != y ==> m[x] !! m[y])
  }

  ghost predicate Listed(m: map<Line, set<Path>>, p: Path) {
    exists id :: id in m && p in m[id]
  }

  /** What a visit removes is what is settled by it: no visit before it removed it. */
  lemma VisitRemoves(env: Env, d: Disk, ids: set<Line>, t: Disk, seen: set<Line>, id: Line, p: Path)
    requires VisitInv(env, d, ids, t, seen) && id in t.lines && id !in ids
    ensures p in With(env, t, Stale(t, id, {}), Removed) <==>
            Doomed(d, ids, p) && Awaited(d, ids, seen, p) && !Awaited(d, ids, seen + {id}, p) &&
                Fate(env, d, p) == Removed
  {
    if p in Stale(t, id, {}) {
      StaleIsDoomed(env, d, ids, t, seen, id, p);
      assert Fate(env, t, p) == Fate(env, d, p);
    } else if Doomed(d, ids, p) {
      if p in t.lines[id] {
        NotStaleIsAwaited(env, d, ids, t, seen, id, p);
      } else {
        AwaitedWithout(d, ids, seen, id, p, t);
      }
    }
  }

  /** What a visit removes is new: its line is in no list yet, and its files in none. */
  lemma VisitIsNew(env: Env, d: Disk, ids: set<Line>, t: Disk, seen: set<Line>, id: Line, m: map<Line, set<Path>>,
                   p: Path)
    requires VisitInv(env, d, ids, t, seen) && id in t.lines && id !in ids && RemovedHolds(env, d, ids, seen, m)
    requires p in With(env, t, Stale(t, id, {}), Removed)
    ensures id !in m && !Listed(m, p)
    ensures Doomed(d, ids, p) && !Awaited(d, ids, seen + {id}, p) && Fate(env, d, p) == Removed
  {
    VisitRemoves(env, d, ids, t, seen, id, p);
    StaleIsDoomed(env, d, ids, t, seen, id, p);
  }

  lemma FewerAwait(d: Disk, ids: set<Line>, seen: set<Line>, id: Line, p: Path)
    ensures Awaited(d, ids, seen + {id}, p) ==> Awaited(d, ids, seen, p)
  {
  }

  /** A file settled by the visit is in the list it adds, one settled before is in a list already. */
  lemma SettledIsListed(env: Env, d: Disk, ids: set<Line>, t: Disk, seen: set<Line>, id: Line, m: map<Line, set<Path>>,
                        p: Path)
    requires VisitInv(env, d, ids, t, seen) && id in t.lines && id !in ids && RemovedHolds(env, d, ids, seen, m)
    requires Doomed(d, ids, p) && !Awaited(d, ids, seen + {id}, p) && Fate(env, d, p) == Removed
    ensures p in With(env, t, Stale(t, id, {}), Removed) || Listed(m, p)
  {
    VisitRemoves(env, d, ids, t, seen, id, p);
  }

  lemma RemovedNext(env: Env, d: Disk, ids: set<Line>, t: Disk, seen: set<Line>, id: Line, m: map<Line, set<Path>>)
    requires VisitInv(env, d, ids, t, seen) && id in t.lines && id !in ids && RemovedHolds(env, d, ids, seen, m)
    ensures var l := With(env, t, Stale(t, id, {}), Removed);
            RemovedHolds(env, d, ids, seen + {id}, if l != {} then m[id := l] else m)
  {
    var l := With(env, t, Stale(t, id, {}), Removed);
    var u := if l != {} then m[id := l] else m;
    forall p | p in l
      ensures id !in m && !Listed(m, p) && Doomed(d, ids, p) && !Awaited(d, ids, seen + {id}, p) &&
              Fate(env, d, p) == Removed
    {
      VisitIsNew(env, d, ids, t, seen, id, m, p);
    }
    forall x, p | x in u && p in u[x]
      ensures Doomed(d, ids, p) && !Awaited(d, ids, seen + {id}, p) && Fate(env, d, p) == Removed
    {
      FewerAwait(d, ids, seen, id, p);
      assert p !in l ==> x in m && p in m[x];
    }
    forall p | Doomed(d, ids, p) && !Awaited(d, ids, seen + {id}, p) &&
        Fate(env, d, p) == Removed ensures Listed(u, p) {
      SettledIsListed(env, d, ids, t, seen, id, m, p);
      if p in l {
        assert id in u && p in u[id];
      } else {
        var x :| x in m && p in m[x];
        assert x in u && p in u[x];
      }
    }
    ListsApart(m, id, l);
  }

  lemma ListsApart(m: map<Line, set<Path>>, id: Line, l: set<Path>)
    requires (forall x, y :: x in m && y in m && x != y ==> m[x] !! m[y]) &&
             forall p :: p in l ==> id !in m && !Listed(m, p)
    ensures var u := if l != {} then m[id := l] else m; forall x, y :: x in u && y in u && x != y ==> u[x] !! u[y]
  {
    if l != {} {
      forall x | x in m ensures m[x] !! l {
        forall p | p in m[x] ensures p !in l { assert Listed(m, p); }
      }
      var p :| p in l;
    }
  }

  lemma RemovedSkip(env: Env, d: Disk, ids: set<Line>, t: Disk, seen: set<Line>, id: Line, m: map<Line, set<Path>>)
    requires VisitInv(env, d, ids, t, seen) && (id in ids || id !in t.lines) && RemovedHolds(env, d, ids, seen, m)
    ensures RemovedHolds(env, d, ids, seen + {id}, m)
  {
    forall p ensures Awaited(d, ids, seen, p) <==> Awaited(d, ids, seen + {id}, p) { }
  }

  lemma RemovedNone(env: Env, d: Disk, ids: set<Line>)
    ensures RemovedHolds(env, d, ids, {}, map[])
  {
    forall p | Doomed(d, ids, p) ensures Awaited(d, ids, {}, p) {
      var id :| id in d.lines && id !in ids && p in d.lines[id];
    }
  }

  lemma {:induction false} RemovedKeep(env: Env, d: Disk, ids: set<Line>, visits: seq<Line>)
    ensures RemovedHolds(env, d, ids, Seen(visits), RemovedBy(env, d, ids, visits))
  {
    if visits == [] {
      RemovedNone(env, d, ids);
    } else {
      var n := |visits| - 1;
      var t, id, seen := PrunedLines(env, d, ids, visits[..n]), visits[n], Seen(visits[..n]);
      VisitsKeep(env, d, ids, visits[..n]);
      RemovedKeep(env, d, ids, visits[..n]);
      SeenNext(visits);
      if id in ids || id !in t.lines {
        RemovedSkip(env, d, ids, t, seen, id, RemovedBy(env, d, ids, visits[..n]));
      } else {
        RemovedNext(env, d, ids, t, seen, id, RemovedBy(env, d, ids, visits[..n]));
      }
    }
  }

  // ---------------------------------------------------------------- what pruning the lines gone means

  ghost predicate Covers(visits: seq<Line>, d: Disk) {
    forall id :: id in d.lines ==> id in visits
  }

  ghost function DoomedWith(env: Env, d: Disk, ids: set<Line>, among: set<Path>, o: Outcome): set<Path> {
    set p | p in among && Doomed(d, ids, p) && Fate(env, d, p) == o
  }

  /** The files removed: held by a line gone and no line configured, there, and the ones installed. */
  lemma PruneLinesTree(env: Env, d: Disk, ids: set<Line>, visits: seq<Line>)
    requires Covers(visits, d)
    ensures PrunedLines(env, d, ids, visits).tree == d.tree - DoomedWith(env, d, ids, d.tree.Keys, Removed)
  {
    var t := PrunedLines(env, d, ids, visits);
    VisitsKeep(env, d, ids, visits);
    forall p ensures !Awaited(d, ids, Seen(visits), p) && PathHolds(env, d, ids, t, Seen(visits), p) { }
    forall p ensures p in t.tree <==> p in d.tree && !(Doomed(d, ids, p) && Fate(env, d, p) == Removed) {
      assert PathHolds(env, d, ids, t, Seen(visits), p);
    }
    forall p | p in t.tree ensures t.tree[p] == d.tree[p] {
      assert PathHolds(env, d, ids, t, Seen(visits), p);
    }
  }

  /** The stamps dropped: of the files doomed whose removal did not fail. */
  lemma PruneLinesStamps(env: Env, d: Disk, ids: set<Line>, visits: seq<Line>)
    requires Covers(visits, d)
    ensures PrunedLines(env, d, ids, visits).stamps ==
            d.stamps - DoomedWith(env, d, ids, d.stamps.Keys, Removed) - DoomedWith(env, d, ids, d.stamps.Keys, Left)
  {
    var t := PrunedLines(env, d, ids, visits);
    VisitsKeep(env, d, ids, visits);
    forall p ensures p in t.stamps <==> p in d.stamps && !(Doomed(d, ids, p) && Fate(env, d, p) != Failed) {
      assert PathHolds(env, d, ids, t, Seen(visits), p);
    }
    forall p | p in t.stamps ensures t.stamps[p] == d.stamps[p] {
      assert PathHolds(env, d, ids, t, Seen(visits), p);
    }
  }

  /** The lines configured are left alone; a file doomed is recorded still, by one line, when its removal failed. */
  lemma PruneLinesRecord(env: Env, d: Disk, ids: set<Line>, visits: seq<Line>)
    requires Covers(visits, d)
    ensures var t := PrunedLines(env, d, ids, visits);
            && (forall id :: id in ids ==>
                  (id in t.lines <==> id in d.lines) && FilesOf(t.lines, id) == FilesOf(d.lines, id))
            && (forall p :: HeldUnconfigured(t, ids, p) <==> Doomed(d, ids, p) && Fate(env, d, p) == Failed)
            && (forall id, p :: id in t.lines && id !in ids && p in t.lines[id] ==>
                  p in FilesOf(d.lines, id) && !HeldByOther(t.lines, id, p))
  {
    var t := PrunedLines(env, d, ids, visits);
    VisitsKeep(env, d, ids, visits);
    forall p ensures HeldUnconfigured(t, ids, p) <==> Doomed(d, ids, p) && Fate(env, d, p) == Failed {
      assert PathHolds(env, d, ids, t, Seen(visits), p);
      if HeldUnconfigured(t, ids, p) {
        var id :| id in t.lines && id !in ids && p in t.lines[id];
        assert KeptForLater(env, d, ids, t, id, p);
      }
    }
    forall id, p | id in t.lines && id !in ids && p in t.lines[id]
      ensures p in FilesOf(d.lines, id) && !HeldByOther(t.lines, id, p)
    {
      assert KeptForLater(env, d, ids, t, id, p);
    }
  }

  /** Each file removed is in the list of one line, and the lists hold nothing else. */
  lemma PruneLinesRemovesOnce(env: Env, d: Disk, ids: set<Line>, visits: seq<Line>)
    requires Covers(visits, d)
    ensures var m := RemovedBy(env, d, ids, visits);
            && (forall p :: Listed(m, p) <==> Doomed(d, ids, p) && Fate(env, d, p) == Removed)
            && (forall x, y :: x in m && y in m && x != y ==> m[x] !! m[y])
  {
    RemovedKeep(env, d, ids, visits);
  }

  /** The order the lines are looked at in changes neither the tree, nor the stamps, nor what is removed or recorded. */
  lemma OrderDoesNotMatter(env: Env, d: Disk, ids: set<Line>, v: seq<Line>, w: seq<Line>)
    requires Covers(v, d) && Covers(w, d)
    ensures var t, u := PrunedLines(env, d, ids, v), PrunedLines(env, d, ids, w);
            && t.tree == u.tree && t.stamps == u.stamps
            && (forall p :: HeldUnconfigured(t, ids, p) <==> HeldUnconfigured(u, ids, p))
            && (forall id :: id in ids ==> FilesOf(t.lines, id) == FilesOf(u.lines, id))
            && (forall p :: Listed(RemovedBy(env, d, ids, v), p) <==> Listed(RemovedBy(env, d, ids, w), p))
  {
    PruneLinesTree(env, d, ids, v);
    PruneLinesTree(env, d, ids, w);
    PruneLinesStamps(env, d, ids, v);
    PruneLinesStamps(env, d, ids, w);
    PruneLinesRecord(env, d, ids, v);
    PruneLinesRecord(env, d, ids, w);
    PruneLinesRemovesOnce(env, d, ids, v);
    PruneLinesRemovesOnce(env, d, ids, w);
  }

  // ---------------------------------------------------------------- whole runs

  /** A run of a line, a pruning of the lines gone, or a change of the tree by anything else. */
  datatype Event =
    | LineRan(env: Env, id: Line, held: set<Path>)
    | LinesPruned(env: Env, ids: set<Line>, visits: seq<Line>)
    | TreeChanged(tree: map<Path, Entry>)

  ghost function Next(d: Disk, e: Event): Disk {
    match e
    case LineRan(env, id, held) => PrunedLine(env, d, id, held)
    case LinesPruned(env, ids, visits) => PrunedLines(env, d, ids, visits)
    case TreeChanged(tree) => d.(tree := tree)
  }

  ghost function Run(events: seq<Event>): Disk {
    if events == [] then Disk(map[], map[], map[]) else Next(Run(events[..|events| - 1]), events[|events| - 1])
  }

  ghost predicate NoOrphan(d: Disk) {
    forall p :: p in d.stamps ==> Recorded(d.lines, p)
  }

  lemma LineKeepsNoOrphan(env: Env, d: Disk, id: Line, held: set<Path>)
    requires NoOrphan(d)
    ensures NoOrphan(PrunedLine(env, d, id, held))
  {
    var t := PrunedLine(env, d, id, held);
    forall p | p in t.stamps ensures Recorded(t.lines, p) {
      if p in held || p in With(env, d, Stale(d, id, held), Failed) {
        assert id in t.lines && p in t.lines[id];
      } else {
        assert p in d.stamps && p !in Stale(d, id, held);
        var x :| x in d.lines && p in d.lines[x];
        var y := if x == id then OtherHolder(d.lines, id, p) else x;
        assert y in t.lines && p in t.lines[y];
      }
    }
  }

  ghost function OtherHolder(lines: map<Line, set<Path>>, id: Line, p: Path): (y: Line)
    requires HeldByOther(lines, id, p)
    ensures y in lines && y != id && p in lines[y]
  {
    var y :| y in lines && y != id && p in lines[y];
    y
  }

  lemma VisitKeepsNoOrphan(env: Env, d: Disk, ids: set<Line>, id: Line)
    requires NoOrphan(d)
    ensures NoOrphan(Visited(env, d, ids, id))
  {
    var t := Visited(env, d, ids, id);
    if id !in ids && id in d.lines {
      forall p | p in t.stamps ensures Recorded(t.lines, p) {
        if p in With(env, d, Stale(d, id, {}), Failed) {
          assert id in t.lines && p in t.lines[id];
        } else {
          assert p in d.stamps && p !in Stale(d, id, {});
          var x :| x in d.lines && p in d.lines[x];
          var y := if x == id then OtherHolder(d.lines, id, p) else x;
          assert y in t.lines && p in t.lines[y];
        }
      }
    }
  }

  lemma {:induction false} VisitsKeepNoOrphan(env: Env, d: Disk, ids: set<Line>, visits: seq<Line>)
    requires NoOrphan(d)
    ensures NoOrphan(PrunedLines(env, d, ids, visits))
  {
    if visits == [] {
    } else {
      var n := |visits| - 1;
      VisitsKeepNoOrphan(env, d, ids, visits[..n]);
      VisitKeepsNoOrphan(env, PrunedLines(env, d, ids, visits[..n]), ids, visits[n]);
    }
  }

  /** Over any run, every stamp is of a file some line records: none is left behind. */
  lemma {:induction false} RunKeepsNoOrphan(events: seq<Event>)
    ensures NoOrphan(Run(events))
  {
    if events == [] {
    } else {
      var n := |events| - 1;
      var d, e := Run(events[..n]), events[n];
      RunKeepsNoOrphan(events[..n]);
      match e
      case LineRan(env, id, held) => LineKeepsNoOrphan(env, d, id, held);
      case LinesPruned(env, ids, visits) => VisitsKeepNoOrphan(env, d, ids, visits);
      case TreeChanged(tree) =>
    }
  }

  /** Event `i` of a run took the stamp `st` of the file at `p`: a run of a line holding it. */
  ghost predicate TookStamp(events: seq<Event>, i: nat, p: Path, st: Stamp)
    requires i < |events|
  {
    events[i].LineRan? && p in events[i].held && p in Run(events[..i + 1]).tree &&
        Run(events[..i + 1]).tree[p] == Regular(st)
  }

  lemma {:induction false} VisitsTakeNoStamp(env: Env, d: Disk, ids: set<Line>, visits: seq<Line>, p: Path)
    requires p in PrunedLines(env, d, ids, visits).stamps
    ensures p in d.stamps && d.stamps[p] == PrunedLines(env, d, ids, visits).stamps[p]
  {
    if visits == [] {
    } else {
      VisitsTakeNoStamp(env, d, ids, visits[..|visits| - 1], p);
    }
  }

  lemma StampIsNew(env: Env, d: Disk, id: Line, held: set<Path>, p: Path)
    requires var t := PrunedLine(env, d, id, held); p in t.stamps && !(p in d.stamps && d.stamps[p] == t.stamps[p])
    ensures var t := PrunedLine(env, d, id, held); p in held && p in t.tree && t.tree[p] == Regular(t.stamps[p])
  {
  }

  lemma NewStampWasTaken(d: Disk, e: Event, p: Path)
    requires p in Next(d, e).stamps && !(p in d.stamps && d.stamps[p] == Next(d, e).stamps[p])
    ensures e.LineRan? && p in e.held && p in Next(d, e).tree && Next(d, e).tree[p] == Regular(Next(d, e).stamps[p])
  {
    match e
    case LineRan(env, id, held) => StampIsNew(env, d, id, held, p);
    case LinesPruned(env, ids, visits) => VisitsTakeNoStamp(env, d, ids, visits, p);
    case TreeChanged(tree) =>
  }

  /** Over any run, a stamp is what the file was at a run of a line that held it: nothing else writes one. */
  lemma {:induction false} StampWasTaken(events: seq<Event>, p: Path) returns (i: nat)
    requires p in Run(events).stamps
    ensures i < |events| && TookStamp(events, i, p, Run(events).stamps[p])
  {
    var n: nat := |events| - 1;
    var d := Run(events[..n]);
    if p in d.stamps && d.stamps[p] == Run(events).stamps[p] {
      i := StampWasTaken(events[..n], p);
      assert events[..n][..i + 1] == events[..i + 1];
    } else {
      NewStampWasTaken(d, events[n], p);
      assert events[..n + 1] == events;
      i := n;
    }
  }

  /** A run of a line removes only files no other line records, unchanged since they were stamped; a failure stays. */
  lemma LineRemovesItsOwn(env: Env, d: Disk, id: Line, held: set<Path>, p: Path)
    ensures var t := PrunedLine(env, d, id, held);
            && (p in d.tree && p !in t.tree ==>
                  && p in FilesOf(d.lines, id) && p !in held && !HeldByOther(d.lines, id, p)
                  && p in d.stamps && d.tree[p] == Regular(d.stamps[p]))
            && (p in With(env, d, Stale(d, id, held), Failed)
                ==> p in FilesOf(t.lines, id) && SameStamp(t, d, p) && SameTree(t, d, p))
  {
  }

  /** So does a pruning of the lines gone. */
  lemma LinesRemoveTheirOwn(env: Env, d: Disk, ids: set<Line>, visits: seq<Line>, p: Path)
    requires Covers(visits, d)
    ensures var t := PrunedLines(env, d, ids, visits);
            && (p in d.tree && p !in t.tree ==> Doomed(d, ids, p) && p in d.stamps && d.tree[p] == Regular(d.stamps[p]))
            && (Doomed(d, ids, p) && Fate(env, d, p) == Failed ==>
                  Recorded(t.lines, p) && SameStamp(t, d, p) && SameTree(t, d, p))
  {
    VisitsKeep(env, d, ids, visits);
    assert PathHolds(env, d, ids, PrunedLines(env, d, ids, visits), Seen(visits), p);
  }

  // ---------------------------------------------------------------- what comes of each file

  /** The file is gone from the tree, the stamps and the record. */
  ghost predicate IsGone(t: Disk, p: Path) {
    p !in t.tree && p !in t.stamps && !Recorded(t.lines, p)
  }

  /** The file is left where it is, and forgotten. */
  ghost predicate IsForgotten(d: Disk, t: Disk, p: Path) {
    SameTree(t, d, p) && p !in t.stamps && !Recorded(t.lines, p)
  }

  /** The file stays, recorded, with the stamp it had. */
  ghost predicate IsKept(d: Disk, t: Disk, p: Path) {
    SameTree(t, d, p) && SameStamp(t, d, p) && Recorded(t.lines, p)
  }

  /** What comes of a file the line held, holds no more, and no other line holds. */
  lemma LineDoesExactly(env: Env, d: Disk, id: Line, held: set<Path>, p: Path)
    requires id in d.lines && p in d.lines[id] && p !in held && !HeldByOther(d.lines, id, p)
    ensures var t := PrunedLine(env, d, id, held);
            && (InSight(env, p) && AsInstalled(d, p) && p !in env.stuck ==> IsGone(t, p))
            && (InSight(env, p) && AsInstalled(d, p) && p in env.stuck ==> IsKept(d, t, p) && p in t.lines[id])
            && (OutOfSight(env, p) ==> IsKept(d, t, p) && p in t.lines[id])
            && (env.noHead || (InSight(env, p) && !AsInstalled(d, p)) ==> IsForgotten(d, t, p))
  {
    OutcomeIs(env, d, p);
    var t := PrunedLine(env, d, id, held);
    assert p in Stale(d, id, held);
    assert t.tree == d.tree - With(env, d, Stale(d, id, held), Removed);
    assert forall x :: x in t.lines && p in t.lines[x] ==> x == id;
    assert p in With(env, d, Stale(d, id, held), Failed) ==> id in t.lines && p in t.lines[id];
  }

  /** A file the line holds is recorded by it and left in the tree, stamped if it can be looked at. */
  lemma LineHoldsExactly(env: Env, d: Disk, id: Line, held: set<Path>, p: Path)
    requires p in held
    ensures var t := PrunedLine(env, d, id, held);
            && id in t.lines && p in t.lines[id] && SameTree(t, d, p)
            && (InSight(env, p) && p in d.tree && d.tree[p].Regular? ==>
                  p in t.stamps && t.stamps[p] == d.tree[p].stamp)
            && (!(InSight(env, p) && p in d.tree && d.tree[p].Regular?) ==> SameStamp(t, d, p))
  {
  }

  /** A file the line does not hold, and did not hold or another line does, is left alone, as are the other lines. */
  lemma LineLeavesTheRest(env: Env, d: Disk, id: Line, held: set<Path>, p: Path, other: Line)
    requires p !in held && (p !in FilesOf(d.lines, id) || HeldByOther(d.lines, id, p)) && other != id
    ensures var t := PrunedLine(env, d, id, held);
            && SameTree(t, d, p) && SameStamp(t, d, p) && p !in FilesOf(t.lines, id)
            && (other in t.lines <==> other in d.lines) && FilesOf(t.lines, other) == FilesOf(d.lines, other)
  {
  }

  /** What comes of a file held by a line gone and by no line configured, whatever the order the lines are looked at. */
  lemma LinesDoExactly(env: Env, d: Disk, ids: set<Line>, visits: seq<Line>, p: Path)
    requires Covers(visits, d) && HeldUnconfigured(d, ids, p) && !HeldConfigured(d, ids, p)
    ensures var t, listed := PrunedLines(env, d, ids, visits), Listed(RemovedBy(env, d, ids, visits), p);
            && (InSight(env, p) && AsInstalled(d, p) && p !in env.stuck ==> IsGone(t, p) && listed)
            && (InSight(env, p) && AsInstalled(d, p) && p in env.stuck ==> IsKept(d, t, p) && !listed)
            && (OutOfSight(env, p) ==> IsKept(d, t, p) && !listed)
            && (env.noHead || (InSight(env, p) && !AsInstalled(d, p)) ==> IsForgotten(d, t, p) && !listed)
  {
    var t := PrunedLines(env, d, ids, visits);
    OutcomeIs(env, d, p);
    VisitsKeep(env, d, ids, visits);
    PruneLinesRecord(env, d, ids, visits);
    PruneLinesRemovesOnce(env, d, ids, visits);
    assert PathHolds(env, d, ids, t, Seen(visits), p);
    RecordedAfter(env, d, ids, visits, p);
  }

  lemma RecordedAfter(env: Env, d: Disk, ids: set<Line>, visits: seq<Line>, p: Path)
    requires Covers(visits, d) && !HeldConfigured(d, ids, p)
    ensures var t := PrunedLines(env, d, ids, visits); Recorded(t.lines, p) <==> HeldUnconfigured(t, ids, p)
  {
    var t := PrunedLines(env, d, ids, visits);
    PruneLinesRecord(env, d, ids, visits);
    if Recorded(t.lines, p) {
      var x :| x in t.lines && p in t.lines[x];
      assert FilesOf(t.lines, x) == t.lines[x];
    }
  }

  /** A file held by no line gone, or by a line configured, is left alone, and so are the lines configured. */
  lemma LinesLeaveTheRest(env: Env, d: Disk, ids: set<Line>, visits: seq<Line>, p: Path, id: Line)
    requires Covers(visits, d) && (!HeldUnconfigured(d, ids, p) || HeldConfigured(d, ids, p)) && id in ids
    ensures var t := PrunedLines(env, d, ids, visits);
            && SameTree(t, d, p) && SameStamp(t, d, p) && !Listed(RemovedBy(env, d, ids, visits), p)
            && (id in t.lines <==> id in d.lines) && FilesOf(t.lines, id) == FilesOf(d.lines, id)
  {
    VisitsKeep(env, d, ids, visits);
    PruneLinesRecord(env, d, ids, visits);
    PruneLinesRemovesOnce(env, d, ids, visits);
    assert PathHolds(env, d, ids, PrunedLines(env, d, ids, visits), Seen(visits), p);
  }
}
