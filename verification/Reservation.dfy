/**
 The calls of the allocator running at once (Allocate, Keep, DropStale, Free and Reap, core/ipam/ipam.go).

 A call looks at the files of the store one at a time. It reserves an address by creating its file
 exclusively, then writing its key in it. It releases the addresses it drops one by one: lock, read the holder,
 remove the file when the holder is its key, unlock. Reap reads a key and removes the file without the lock.
 The steps of any number of calls interleave in any order, and any of them may end at any step, as on an
 error or a crash, which gives the lock back.
 */
module Reservation {
  import opened Text
  import opened Address

  type Key = string
  type Proc = nat
  type Inode = nat

  /** A call, with the ranges as it reads them. */
  datatype Call = Allocate(ranges: Addr -> bool) | Keep(a: Addr) | DropStale(ranges: Addr -> bool) | Free
  {
    /** The addresses the call never releases. */
    predicate Spares(b: Addr) {
      match this
      case Allocate(ranges) => ranges(b)
      case Keep(a) => b == a
      case DropStale(ranges) => ranges(b)
      case Free => false
    }

    /** The addresses the call may reserve. */
    predicate Takes(b: Addr) {
      (Allocate? || Keep?) && Spares(b)
    }

    /** The addresses which, held by the key, let the call release others. */
    predicate Finds(b: Addr) {
      (Keep? || DropStale?) && Spares(b)
    }

    /** The addresses the call releases, where the key holds them. An Allocate goes on as a DropStale to release any. */
    predicate Drops(b: Addr) {
      !Allocate? && !Spares(b)
    }
  }

  /** The call a process runs for a key. A DropReplaced is a DropStale of each key, which a process runs each. */
  datatype Job = Job(key: Key, call: Call)

  /** Where a process is in its call. The inode is that of the file created or read. */
  datatype Point =
    | Idle
    | Looking(job: Job)
    | Writing(job: Job, a: Addr, ino: Inode)
    | Dropping(job: Job)
    | Locking(job: Job, a: Addr)
    | Reading(job: Job, a: Addr)
    | Removing(job: Job, a: Addr, ino: Inode)
    | Unlocking(job: Job)
    | Reaping(key: Key, a: Addr, ino: Inode)
  {
    predicate Working() {
      !Idle? && !Reaping?
    }

    predicate Critical() {
      Reading? || Removing? || Unlocking?
    }

    /** Past the search: the call releases addresses. */
    predicate Releasing() {
      Dropping? || Locking? || Reading? || Removing? || Unlocking?
    }
  }

  /** The names of the store, the content of the files, and who holds the lock. A file just created is empty. */
  datatype State = State(files: map<Addr, Inode>, content: map<Inode, string>, lock: Option<Proc>, at: map<Proc, Point>)
  {
    function At(p: Proc): Point {
      if p in at then at[p] else Idle
    }

    /** The key an address is reserved for, nothing when there is no file or an empty one. */
    function Holder(a: Addr): string {
      if a in files && files[a] in content then content[files[a]] else ""
    }

    function Goes(p: Proc, point: Point): State {
      this.(at := at[p := point])
    }

    function Unlocked(p: Proc): State {
      if lock == Some(p) then this.(lock := None) else this
    }

    /** The file of an address is this one. */
    predicate Names(a: Addr, ino: Inode) {
      a in files && files[a] == ino
    }
  }

  const START := State(map[], map[], None, map[])

  datatype Step =
    | Start(key: Key, call: Call) | Create(a: Addr, ino: Inode) | Write | Find(a: Addr)
    | Pick(a: Addr) | Lock | Read | Remove | Unlock | ReapRead(a: Addr) | ReapRemove | End

  /** One step of one process. */
  datatype Action = Action(p: Proc, step: Step)

  predicate Enabled(s: State, act: Action) {
    var here := s.At(act.p);
    match act.step
    case Start(key, _) => here.Idle? && key != ""
    case Create(a, ino) => here.Looking? && here.job.call.Takes(a) && ino !in s.content
    case Write => here.Writing?
    case Find(a) => here.Looking? && here.job.call.Finds(a)
    case Pick(a) => here.Dropping? && here.job.call.Drops(a)
    case Lock => here.Locking? && s.lock == None
    case Read => here.Reading?
    case Remove => here.Removing?
    case Unlock => here.Unlocking?
    case ReapRead(a) => here.Idle? && a in s.files && s.Holder(a) != ""
    case ReapRemove => here.Reaping?
    case End => true
  }

  /** Where a call goes once its address is reserved: Keep releases the others, Allocate looks for what to drop. */
  function Reserved(job: Job): Point {
    match job.call
    case Allocate(ranges) => Looking(job.(call := DropStale(ranges)))
    case _ => Dropping(job)
  }

  function Do(s: State, act: Action): State
    requires Enabled(s, act)
  {
    var p := act.p;
    var here := s.At(p);
    match act.step
    case Start(key, call) => s.Goes(p, if call.Free? then Dropping(Job(key, call)) else Looking(Job(key, call)))
    case Create(a, ino) =>
      if a in s.files then s
      else s.(files := s.files[a := ino], content := s.content[ino := ""]).Goes(p, Writing(here.job, a, ino))
    case Write => s.(content := s.content[here.ino := here.job.key]).Goes(p, Reserved(here.job))
    case Find(a) => if s.Holder(a) == here.job.key then s.Goes(p, Dropping(here.job)) else s
    case Pick(a) => s.Goes(p, Locking(here.job, a))
    case Lock => s.(lock := Some(p)).Goes(p, Reading(here.job, here.a))
    case Read =>
      if here.a in s.files && s.Holder(here.a) == here.job.key
      then s.Goes(p, Removing(here.job, here.a, s.files[here.a]))
      else s.Goes(p, Unlocking(here.job))
    case Remove => s.(files := s.files - {here.a}).Goes(p, Unlocking(here.job))
    case Unlock => s.Unlocked(p).Goes(p, Dropping(here.job))
    case ReapRead(a) => s.Goes(p, Reaping(s.Holder(a), a, s.files[a]))
    case ReapRemove => s.(files := s.files - {here.a}).Goes(p, Idle)
    case End => s.Unlocked(p).Goes(p, Idle)
  }

  // ---------------------------------------------------------------- what every step keeps, Reap or not

  /** What a process knows of the file it created or read. */
  ghost predicate FileKnown(s: State, p: Proc) {
    var here := s.At(p);
    && (here.Writing? ==> here.ino in s.content && s.content[here.ino] == "" && here.job.key != "")
    && (here.Removing? ==> here.ino in s.content && s.content[here.ino] == here.job.key)
    && (here.Reaping? ==> here.ino in s.content && s.content[here.ino] == here.key && here.key != "")
    && (here.Working() ==> here.job.key != "")
  }

  ghost predicate Base(s: State) {
    && (forall a :: a in s.files ==> s.files[a] in s.content)
    && (forall a, b :: a in s.files && b in s.files && a != b ==> s.files[a] != s.files[b])
    && (forall p, q :: p != q && s.At(p).Writing? && s.At(q).Writing? ==> s.At(p).ino != s.At(q).ino)
    && (forall p :: FileKnown(s, p))
  }

  lemma StepKeepsFiles(s: State, act: Action)
    requires Base(s) && Enabled(s, act)
    ensures var t := Do(s, act);
            && (forall a :: a in t.files ==> t.files[a] in t.content)
            && (forall a, b :: a in t.files && b in t.files && a != b ==> t.files[a] != t.files[b])
  {
    assert FileKnown(s, act.p);
  }

  lemma StepKeepsWriters(s: State, act: Action, p: Proc, q: Proc)
    requires Base(s) && Enabled(s, act) && p != q && Do(s, act).At(p).Writing? && Do(s, act).At(q).Writing?
    ensures Do(s, act).At(p).ino != Do(s, act).At(q).ino
  {
    assert FileKnown(s, p) && FileKnown(s, q);
  }

  lemma StepKeepsKnown(s: State, act: Action, q: Proc)
    requires Base(s) && Enabled(s, act) && q != act.p
    ensures FileKnown(Do(s, act), q)
  {
    assert FileKnown(s, q) && FileKnown(s, act.p);
    assert Do(s, act).At(q) == s.At(q);
  }

  lemma StepKnowsItself(s: State, act: Action)
    requires Base(s) && Enabled(s, act)
    ensures FileKnown(Do(s, act), act.p)
  {
    assert FileKnown(s, act.p);
  }

  lemma StepKeepsBase(s: State, act: Action)
    requires Base(s) && Enabled(s, act)
    ensures Base(Do(s, act))
  {
    var t := Do(s, act);
    StepKeepsFiles(s, act);
    forall q ensures FileKnown(t, q) {
      if q == act.p { StepKnowsItself(s, act); } else { StepKeepsKnown(s, act, q); }
    }
    forall p, q | p != q && t.At(p).Writing? && t.At(q).Writing? ensures t.At(p).ino != t.At(q).ino {
      StepKeepsWriters(s, act, p, q);
    }
  }

  /** A call may end anywhere, which gives its lock back and changes nothing of the store nor of the other calls. */
  lemma MayEnd(s: State, p: Proc, q: Proc)
    ensures Enabled(s, Action(p, End))
    ensures var t := Do(s, Action(p, End));
            && t.files == s.files && t.content == s.content && t.At(p).Idle? && t.lock != Some(p)
            && (q != p ==> t.At(q) == s.At(q) && (s.lock == Some(q) ==> t.lock == Some(q)))
  {
  }

  // ---------------------------------------------------------------- every interleaving

  ghost predicate Runs(s: State, acts: seq<Action>)
    decreases |acts|
  {
    acts == [] || (Enabled(s, acts[0]) && Runs(Do(s, acts[0]), acts[1..]))
  }

  ghost function After(s: State, acts: seq<Action>): State
    requires Runs(s, acts)
    decreases |acts|
  {
    if acts == [] then s else After(Do(s, acts[0]), acts[1..])
  }

  lemma {:induction false} RunKeepsBase(s: State, acts: seq<Action>)
    requires Base(s) && Runs(s, acts)
    ensures Base(After(s, acts))
    decreases |acts|
  {
    if acts == [] {
    } else {
      StepKeepsBase(s, acts[0]);
      RunKeepsBase(Do(s, acts[0]), acts[1..]);
    }
  }

  // ---------------------------------------------------------------- a removal takes the file that was read

  /** The step removes the file of the address. */
  ghost predicate Clears(s: State, act: Action, a: Addr) {
    a in s.files && ((act.step.Remove? && s.At(act.p).Removing? && s.At(act.p).a == a)
                     || (act.step.ReapRemove? && s.At(act.p).Reaping? && s.At(act.p).a == a))
  }

  /** Some step of the run removes the file of the address. */
  ghost predicate Cleared(s: State, acts: seq<Action>, a: Addr)
    requires Runs(s, acts)
    decreases |acts|
  {
    acts != [] && (Clears(s, acts[0], a) || Cleared(Do(s, acts[0]), acts[1..], a))
  }

  /** No address has the file. */
  ghost predicate Unnamed(s: State, ino: Inode) {
    forall a :: a in s.files ==> s.files[a] != ino
  }

  /** A file removed never comes back, at any address. */
  lemma {:induction false} NeverComesBack(s: State, acts: seq<Action>, ino: Inode)
    requires Runs(s, acts) && ino in s.content && Unnamed(s, ino)
    ensures Unnamed(After(s, acts), ino)
    decreases |acts|
  {
    if acts == [] {
    } else {
      NeverComesBack(Do(s, acts[0]), acts[1..], ino);
    }
  }

  /** A step that does not remove the file of an address leaves it, and the key in it. */
  lemma StepKeepsReserved(s: State, act: Action, a: Addr)
    requires Base(s) && Enabled(s, act) && a in s.files && !Clears(s, act, a)
    ensures var t := Do(s, act);
            t.Names(a, s.files[a]) && s.files[a] in t.content && (s.Holder(a) != "" ==> t.Holder(a) == s.Holder(a))
  {
    assert FileKnown(s, act.p);
  }

  lemma ClearedIsUnnamed(s: State, act: Action, a: Addr)
    requires Base(s) && Enabled(s, act) && Clears(s, act, a)
    ensures Unnamed(Do(s, act), s.files[a]) && s.files[a] in Do(s, act).content
  {
  }

  /**
   Over any interleaving of all the calls, Reap among them: a file is still the one of its address, with the key it
   had, exactly when no step removed the file of the address.
   */
  lemma {:induction false} FileStaysExactly(s: State, acts: seq<Action>, a: Addr)
    requires Base(s) && Runs(s, acts) && a in s.files
    ensures After(s, acts).Names(a, s.files[a]) <==> !Cleared(s, acts, a)
    ensures !Cleared(s, acts, a) && s.Holder(a) != "" ==> After(s, acts).Holder(a) == s.Holder(a)
    decreases |acts|
  {
    if acts == [] {
    } else {
      var t := Do(s, acts[0]);
      StepKeepsBase(s, acts[0]);
      if Clears(s, acts[0], a) {
        ClearedIsUnnamed(s, acts[0], a);
        NeverComesBack(t, acts[1..], s.files[a]);
      } else {
        StepKeepsReserved(s, acts[0], a);
        FileStaysExactly(t, acts[1..], a);
      }
    }
  }

  // ---------------------------------------------------------------- what every step keeps but the removal by Reap

  /** What a call may be doing, whatever the store. */
  ghost predicate Planned(here: Point) {
    && (here.Looking? ==> !here.job.call.Free?)
    && (here.Writing? ==> here.job.call.Takes(here.a))
    && (here.Locking? || here.Reading? || here.Removing? ==> here.job.call.Drops(here.a))
  }

  ghost predicate PointHolds(s: State, p: Proc) {
    var here := s.At(p);
    && (here.Critical() ==> s.lock == Some(p))
    && (here.Writing? || here.Removing? ==> s.Names(here.a, here.ino))
    && Planned(here)
  }

  ghost predicate Inv(s: State) {
    Base(s) && forall p :: PointHolds(s, p)
  }

  lemma StepIsPlanned(s: State, act: Action)
    requires Enabled(s, act) && Planned(s.At(act.p))
    ensures Planned(Do(s, act).At(act.p))
  {
  }

  lemma StepKeepsItself(s: State, act: Action)
    requires Inv(s) && Enabled(s, act)
    ensures PointHolds(Do(s, act), act.p)
  {
    assert PointHolds(s, act.p) && FileKnown(s, act.p);
    StepIsPlanned(s, act);
  }

  /** A process the step is not of finds its file and its lock as they were, unless Reap removes the file. */
  lemma StepKeepsOthers(s: State, act: Action, q: Proc)
    requires Inv(s) && Enabled(s, act) && q != act.p
    requires act.step.ReapRemove? ==> !((s.At(q).Writing? || s.At(q).Removing?) && s.At(q).a == s.At(act.p).a)
    ensures PointHolds(Do(s, act), q)
  {
    assert PointHolds(s, q) && PointHolds(s, act.p) && FileKnown(s, q) && FileKnown(s, act.p);
    assert Do(s, act).At(q) == s.At(q);
  }

  /** Nothing is being written or released at the address a Reap is about to remove the file of. */
  ghost predicate Undisturbed(s: State, p: Proc)
    requires s.At(p).Reaping?
  {
    forall q :: s.At(q).Writing? || s.At(q).Removing? ==> s.At(q).a != s.At(p).a
  }

  lemma StepKeepsInv(s: State, act: Action)
    requires Inv(s) && Enabled(s, act) && (act.step.ReapRemove? ==> Undisturbed(s, act.p))
    ensures Inv(Do(s, act))
  {
    StepKeepsBase(s, act);
    forall q ensures PointHolds(Do(s, act), q) {
      if q == act.p { StepKeepsItself(s, act); } else { StepKeepsOthers(s, act, q); }
    }
  }

  /** The removal by Reap keeps it exactly when no reservation is being written or released at that address. */
  lemma ReapKeepsInvExactly(s: State, p: Proc)
    requires Inv(s) && s.At(p).Reaping?
    ensures Inv(Do(s, Action(p, ReapRemove))) <==> Undisturbed(s, p)
  {
    var act := Action(p, ReapRemove);
    if Undisturbed(s, p) {
      StepKeepsInv(s, act);
    } else {
      var q :| (s.At(q).Writing? || s.At(q).Removing?) && s.At(q).a == s.At(p).a;
      assert Do(s, act).At(q) == s.At(q);
      assert !PointHolds(Do(s, act), q);
    }
  }

  ghost predicate NoReap(acts: seq<Action>) {
    forall i :: 0 <= i < |acts| ==> !acts[i].step.ReapRemove?
  }

  lemma {:induction false} RunKeepsInv(s: State, acts: seq<Action>)
    requires Inv(s) && Runs(s, acts) && NoReap(acts)
    ensures Inv(After(s, acts))
    decreases |acts|
  {
    if acts == [] {
    } else {
      StepKeepsInv(s, acts[0]);
      RunKeepsInv(Do(s, acts[0]), acts[1..]);
    }
  }

  // ---------------------------------------------------------------- reservations are released by their own key

  /** The step releases the address for the key holding it. */
  ghost predicate Releases(s: State, act: Action, a: Addr, key: Key) {
    act.step.Remove? && s.At(act.p).Removing? && s.At(act.p).a == a && s.At(act.p).job.key == key && s.Holder(a) == key
  }

  /** Some step of the run releases the address for the key. */
  ghost predicate Released(s: State, acts: seq<Action>, a: Addr, key: Key)
    requires Runs(s, acts)
    decreases |acts|
  {
    acts != [] && (Releases(s, acts[0], a, key) || Released(Do(s, acts[0]), acts[1..], a, key))
  }

  /** A file created for a key: no other writes in it. */
  ghost predicate CreatedFor(s: State, a: Addr, ino: Inode, key: Key) {
    && s.Names(a, ino)
    && (s.Holder(a) == "" || s.Holder(a) == key)
    && forall p :: s.At(p).Writing? && s.At(p).ino == ino ==> s.At(p).job.key == key
  }

  lemma StepKeepsCreated(s: State, act: Action, a: Addr, ino: Inode, key: Key)
    requires Inv(s) && Enabled(s, act) && !act.step.ReapRemove? && CreatedFor(s, a, ino, key) && key != ""
    ensures CreatedFor(Do(s, act), a, ino, key) || Releases(s, act, a, key)
  {
    var t := Do(s, act);
    assert PointHolds(s, act.p) && FileKnown(s, act.p);
    if !Clears(s, act, a) {
      StepKeepsReserved(s, act, a);
      forall p | t.At(p).Writing? && t.At(p).ino == ino ensures t.At(p).job.key == key {
        assert p != act.p ==> t.At(p) == s.At(p);
      }
    }
  }

  /** Over any run without a removal by Reap, a file created for a key is its own until a release of that key. */
  lemma {:induction false} CreationIsNeverLost(s: State, acts: seq<Action>, a: Addr, ino: Inode, key: Key)
    requires Inv(s) && Runs(s, acts) && NoReap(acts) && CreatedFor(s, a, ino, key) && key != ""
    ensures CreatedFor(After(s, acts), a, ino, key) || Released(s, acts, a, key)
    decreases |acts|
  {
    if acts == [] {
    } else {
      StepKeepsInv(s, acts[0]);
      StepKeepsCreated(s, acts[0], a, ino, key);
      if !Releases(s, acts[0], a, key) { CreationIsNeverLost(Do(s, acts[0]), acts[1..], a, ino, key); }
    }
  }

  lemma HeldIsCreated(s: State, a: Addr)
    requires Base(s) && s.Holder(a) != ""
    ensures CreatedFor(s, a, s.files[a], s.Holder(a))
  {
    assert forall p :: s.At(p).Writing? ==> FileKnown(s, p);
  }

  lemma {:induction false} ReleasedIsCleared(s: State, acts: seq<Action>, a: Addr, key: Key)
    requires Runs(s, acts) && Released(s, acts, a, key) && key != ""
    ensures Cleared(s, acts, a)
    decreases |acts|
  {
    if Releases(s, acts[0], a, key) {
    } else {
      ReleasedIsCleared(Do(s, acts[0]), acts[1..], a, key);
    }
  }

  /**
   Over any run without a removal by Reap, a reservation is the one it was, file and key, exactly when no release of its
   own key removed it.
   */
  lemma ReservationStaysExactly(s: State, acts: seq<Action>, a: Addr)
    requires Inv(s) && Runs(s, acts) && NoReap(acts) && s.Holder(a) != ""
    ensures After(s, acts).Names(a, s.files[a]) && After(s, acts).Holder(a) == s.Holder(a)
       <==> !Released(s, acts, a, s.Holder(a))
  {
    FileStaysExactly(s, acts, a);
    if Released(s, acts, a, s.Holder(a)) {
      ReleasedIsCleared(s, acts, a, s.Holder(a));
    } else {
      HeldIsCreated(s, a);
      CreationIsNeverLost(s, acts, a, s.files[a], s.Holder(a));
    }
  }

  /** From an empty store, an address goes from one key to another only through a release of the first. */
  lemma NoAddressHasTwoHolders(before: seq<Action>, after: seq<Action>, a: Addr)
    requires Runs(START, before) && Runs(After(START, before), after) && NoReap(before) && NoReap(after)
    requires var s, t := After(START, before), After(After(START, before), after);
             s.Holder(a) != "" && t.Holder(a) != s.Holder(a)
    ensures var s := After(START, before); Released(s, after, a, s.Holder(a))
  {
    RunKeepsInv(START, before);
    ReservationStaysExactly(After(START, before), after, a);
  }

  /** Two draws never get one address: the second creates a file of it only after a release of the first. */
  lemma NoAddressIsDrawnTwice(s: State, acts: seq<Action>, p: Proc, q: Proc)
    requires Inv(s) && Runs(s, acts) && NoReap(acts) && s.At(p).Writing?
    requires var t := After(s, acts); t.At(q).Writing? && t.At(q).a == s.At(p).a && t.At(q).ino != s.At(p).ino
    ensures Released(s, acts, s.At(p).a, s.At(p).job.key)
    ensures forall r :: r != p && s.At(r).Writing? ==> s.At(r).a != s.At(p).a
  {
    var a, ino, key := s.At(p).a, s.At(p).ino, s.At(p).job.key;
    assert PointHolds(s, p) && FileKnown(s, p);
    forall r | r != p && s.At(r).Writing? ensures s.At(r).a != a { assert PointHolds(s, r); }
    CreationIsNeverLost(s, acts, a, ino, key);
    RunKeepsInv(s, acts);
    assert PointHolds(After(s, acts), q);
  }

  // ---------------------------------------------------------------- a removal out of the lock

  /**
   Whatever runs between the two steps of a Reap, the file of the address is the one it read, with the key it read,
   exactly when nothing removed the file of the address meanwhile.
   */
  lemma ReapFindsItsFileExactly(s: State, p: Proc, a: Addr, acts: seq<Action>)
    requires Base(s) && Enabled(s, Action(p, ReapRead(a))) && Runs(Do(s, Action(p, ReapRead(a))), acts)
    ensures var r := Do(s, Action(p, ReapRead(a)));
            After(r, acts).Names(a, s.files[a]) && After(r, acts).Holder(a) == s.Holder(a) <==> !Cleared(r, acts, a)
  {
    StepKeepsBase(s, Action(p, ReapRead(a)));
    FileStaysExactly(Do(s, Action(p, ReapRead(a))), acts, a);
  }

  /** With no other Reap, that is exactly when no release of the key it read removed it. */
  lemma ReapTakesItsOwnExactly(s: State, p: Proc, a: Addr, acts: seq<Action>)
    requires Inv(s) && Enabled(s, Action(p, ReapRead(a))) && Runs(Do(s, Action(p, ReapRead(a))), acts) && NoReap(acts)
    ensures var r := Do(s, Action(p, ReapRead(a)));
            After(r, acts).Names(a, s.files[a]) && After(r, acts).Holder(a) == s.Holder(a) <==>
                !Released(r, acts, a, s.Holder(a))
  {
    StepKeepsInv(s, Action(p, ReapRead(a)));
    ReservationStaysExactly(Do(s, Action(p, ReapRead(a))), acts, a);
  }

  // ---------------------------------------------------------------- a key is never left without an address

  ghost predicate HoldsOne(s: State, key: Key) {
    key != "" && exists a :: s.Holder(a) == key
  }

  ghost predicate WorksFor(s: State, p: Proc, key: Key) {
    s.At(p).Working() && s.At(p).job.key == key
  }

  ghost predicate ReleasesFor(s: State, p: Proc, key: Key) {
    s.At(p).Releasing() && s.At(p).job.key == key
  }

  /** What the first call spares, the second does. */
  ghost predicate Within(c: Call, d: Call) {
    forall b :: c.Spares(b) ==> d.Spares(b)
  }

  ghost predicate Nested(c: Call, d: Call) {
    Within(c, d) || Within(d, c)
  }

  /** The calls of the key that run at once spare addresses one within the other, and none of them is a Free. */
  ghost predicate Orderly(s: State, key: Key) {
    && (forall p, q :: WorksFor(s, p, key) && WorksFor(s, q, key) ==> Nested(s.At(p).job.call, s.At(q).job.call))
    && (forall p :: WorksFor(s, p, key) ==> !s.At(p).job.call.Free?)
  }

  /** The step is no removal by Reap, or one of no reservation of the key, with nothing written or released there. */
  ghost predicate Harmless(s: State, act: Action, key: Key)
    requires Enabled(s, act)
  {
    act.step.ReapRemove? ==> Undisturbed(s, act.p) && s.Holder(s.At(act.p).a) != key
  }

  /** So is every state and every step of the run. */
  ghost predicate AlwaysOrderly(s: State, acts: seq<Action>, key: Key)
    requires Runs(s, acts)
    decreases |acts|
  {
    Orderly(s, key) && (acts == [] || (Harmless(s, acts[0], key) && AlwaysOrderly(Do(s, acts[0]), acts[1..], key)))
  }

  /** The key holds the address, and no call releasing for it would release it. */
  ghost predicate Spared(s: State, key: Key, x: Addr) {
    key != "" && s.Holder(x) == key && forall p :: ReleasesFor(s, p, key) ==> s.At(p).job.call.Spares(x)
  }

  /** While the key holds an address, or a call releases for it, it holds one that all those calls spare. */
  ghost predicate Anchored(s: State, key: Key) {
    HoldsOne(s, key) || (exists p :: ReleasesFor(s, p, key)) ==> exists x :: Spared(s, key, x)
  }

  /** A step keeps a spared address. */
  lemma StepKeepsHolder(s: State, act: Action, key: Key, x: Addr)
    requires Inv(s) && Enabled(s, act) && Harmless(s, act, key) && Spared(s, key, x)
    ensures Do(s, act).Holder(x) == key
  {
    assert PointHolds(s, act.p) && FileKnown(s, act.p);
    if act.step.Remove? { assert s.At(act.p).job.key == key ==> ReleasesFor(s, act.p, key); }
    StepKeepsReserved(s, act, x);
  }

  /** A call that starts to release was one of the key, and found or reserved an address of the key that it spares. */
  lemma StartsToRelease(s: State, act: Action, key: Key) returns (a: Addr)
    requires Inv(s) && Enabled(s, act) && Orderly(Do(s, act), key)
    requires ReleasesFor(Do(s, act), act.p, key) && !ReleasesFor(s, act.p, key)
    ensures WorksFor(s, act.p, key) && s.At(act.p).job == Do(s, act).At(act.p).job
    ensures Do(s, act).Holder(a) == key && s.At(act.p).job.call.Spares(a)
  {
    assert PointHolds(s, act.p) && FileKnown(s, act.p);
    assert WorksFor(Do(s, act), act.p, key);
    a := if act.step.Find? then act.step.a else s.At(act.p).a;
  }

  lemma OthersRelease(s: State, act: Action, key: Key, p: Proc)
    requires Enabled(s, act) && ReleasesFor(Do(s, act), p, key) && (p != act.p || ReleasesFor(s, p, key))
    ensures ReleasesFor(s, p, key) && s.At(p).job.call == Do(s, act).At(p).job.call
  {
    if p != act.p { assert Do(s, act).At(p) == s.At(p); }
  }

  /** Of the address spared so far and the one a call starts to release with, one is spared by all. */
  lemma StepKeepsSpared(s: State, act: Action, key: Key, x: Addr) returns (y: Addr)
    requires Inv(s) && Enabled(s, act) && Harmless(s, act, key) && Spared(s, key, x)
    requires Orderly(s, key) && Orderly(Do(s, act), key)
    ensures Spared(Do(s, act), key, y)
  {
    var t := Do(s, act);
    StepKeepsHolder(s, act, key, x);
    y := x;
    if ReleasesFor(t, act.p, key) && !ReleasesFor(s, act.p, key) {
      var a := StartsToRelease(s, act, key);
      var c := s.At(act.p).job.call;
      if !c.Spares(x) { y := a; }
      forall p | ReleasesFor(t, p, key) ensures t.At(p).job.call.Spares(y) {
        if p != act.p {
          OthersRelease(s, act, key, p);
          assert WorksFor(s, p, key) && WorksFor(s, act.p, key);
          assert Nested(s.At(p).job.call, c);
        }
      }
    } else {
      forall p | ReleasesFor(t, p, key) ensures t.At(p).job.call.Spares(x) { OthersRelease(s, act, key, p); }
    }
  }

  /** A key comes to hold its first address as a reservation is written. */
  lemma FirstAddress(s: State, act: Action, key: Key, b: Addr)
    requires Inv(s) && Enabled(s, act) && key != "" && Do(s, act).Holder(b) == key && s.Holder(b) != key
    ensures act.step.Write? && WorksFor(s, act.p, key) && b == s.At(act.p).a
  {
    assert PointHolds(s, act.p) && FileKnown(s, act.p);
  }

  lemma StepStartsSpared(s: State, act: Action, key: Key)
    requires Inv(s) && Enabled(s, act) && Orderly(Do(s, act), key) && key != ""
    requires !HoldsOne(s, key) && !exists p :: ReleasesFor(s, p, key)
    ensures Anchored(Do(s, act), key)
  {
    var t := Do(s, act);
    if exists p :: ReleasesFor(t, p, key) {
      var p :| ReleasesFor(t, p, key);
      if p != act.p { OthersRelease(s, act, key, p); }
      var a := StartsToRelease(s, act, key);
    }
    if HoldsOne(t, key) {
      var b :| t.Holder(b) == key;
      FirstAddress(s, act, key, b);
      assert PointHolds(s, act.p);
      forall p | ReleasesFor(t, p, key) ensures t.At(p).job.call.Spares(b) {
        if p != act.p { OthersRelease(s, act, key, p); }
      }
      assert Spared(t, key, b);
    }
  }

  lemma StepKeepsAnchored(s: State, act: Action, key: Key)
    requires Inv(s) && Enabled(s, act) && Harmless(s, act, key) && Anchored(s, key) && key != ""
    requires Orderly(s, key) && Orderly(Do(s, act), key)
    ensures Anchored(Do(s, act), key) && (HoldsOne(s, key) ==> HoldsOne(Do(s, act), key))
  {
    if x :| Spared(s, key, x) {
      var y := StepKeepsSpared(s, act, key, x);
    } else {
      StepStartsSpared(s, act, key);
    }
  }

  /**
   Over any interleaving of all the calls, a key that holds an address holds one at every later step, while the calls
   of it that run at once spare addresses one within the other, whatever the calls of the other keys do.
   */
  lemma {:induction false} KeyIsNeverLeftWithout(s: State, acts: seq<Action>, key: Key)
    requires Inv(s) && Runs(s, acts) && AlwaysOrderly(s, acts, key) && Anchored(s, key) && key != ""
    ensures Inv(After(s, acts)) && Anchored(After(s, acts), key)
    ensures HoldsOne(s, key) ==> HoldsOne(After(s, acts), key)
    decreases |acts|
  {
    if acts == [] {
    } else {
      StepKeepsInv(s, acts[0]);
      StepKeepsAnchored(s, acts[0], key);
      KeyIsNeverLeftWithout(Do(s, acts[0]), acts[1..], key);
    }
  }

  /** From an empty store, once such a key holds an address it holds one at every later step. */
  lemma OnceHeldAlwaysHeld(before: seq<Action>, after: seq<Action>, key: Key)
    requires Runs(START, before) && Runs(After(START, before), after)
    requires AlwaysOrderly(START, before, key) && AlwaysOrderly(After(START, before), after, key)
    requires HoldsOne(After(START, before), key)
    ensures HoldsOne(After(After(START, before), after), key)
  {
    KeyIsNeverLeftWithout(START, before, key);
    KeyIsNeverLeftWithout(After(START, before), after, key);
  }

  // ---------------------------------------------------------------- runs that lose an address

  lemma {:induction false} RunsThen(s: State, a: seq<Action>, b: seq<Action>)
    requires Runs(s, a) && Runs(After(s, a), b)
    ensures Runs(s, a + b) && After(s, a + b) == After(After(s, a), b)
    ensures NoReap(a) && NoReap(b) ==> NoReap(a + b)
    decreases |a|
  {
    if a == [] {
      assert a + b == b;
    } else {
      assert (a + b)[1..] == a[1..] + b;
      RunsThen(Do(s, a[0]), a[1..], b);
    }
  }

  lemma OneStep(s: State, act: Action)
    requires Enabled(s, act)
    ensures Runs(s, [act]) && After(s, [act]) == Do(s, act)
  {
    assert [act][1..] == [];
  }

  lemma TwoSteps(s: State, a: Action, b: Action)
    requires Enabled(s, a) && Enabled(Do(s, a), b)
    ensures Runs(s, [a, b]) && After(s, [a, b]) == Do(Do(s, a), b)
  {
    OneStep(s, a);
    OneStep(Do(s, a), b);
    RunsThen(s, [a], [b]);
    assert [a] + [b] == [a, b];
  }

  function ReleaseSteps(p: Proc, a: Addr): seq<Action> {
    [Action(p, Pick(a)), Action(p, Lock)] + [Action(p, Read), Action(p, Remove)] + [Action(p, Unlock)]
  }

  lemma GoesOn(s: State, p: Proc, here: Point, there: Point)
    ensures s.Goes(p, here).Goes(p, there) == s.Goes(p, there)
  {
    assert s.at[p := here][p := there] == s.at[p := there];
  }

  lemma PickAndLock(s: State, p: Proc, a: Addr)
    requires s.At(p).Dropping? && s.At(p).job.call.Drops(a) && s.lock == None
    ensures var acts := [Action(p, Pick(a)), Action(p, Lock)];
            Runs(s, acts) && After(s, acts) == s.(lock := Some(p)).Goes(p, Reading(s.At(p).job, a))
  {
    TwoSteps(s, Action(p, Pick(a)), Action(p, Lock));
    GoesOn(s.(lock := Some(p)), p, Locking(s.At(p).job, a), Reading(s.At(p).job, a));
  }

  lemma ReadAndRemove(s: State, p: Proc, a: Addr)
    requires s.At(p).Reading? && s.At(p).a == a && a in s.files && s.Holder(a) == s.At(p).job.key
    ensures var acts := [Action(p, Read), Action(p, Remove)];
            Runs(s, acts) && After(s, acts) == s.(files := s.files - {a}).Goes(p, Unlocking(s.At(p).job))
  {
    TwoSteps(s, Action(p, Read), Action(p, Remove));
    GoesOn(s.(files := s.files - {a}), p, Removing(s.At(p).job, a, s.files[a]), Unlocking(s.At(p).job));
  }

  /** A release with nothing in its way. */
  lemma ReleaseRuns(s: State, p: Proc, a: Addr)
    requires s.At(p).Dropping? && s.At(p).job.call.Drops(a) && s.lock == None && a in s.files &&
             s.Holder(a) == s.At(p).job.key
    ensures Runs(s, ReleaseSteps(p, a)) && NoReap(ReleaseSteps(p, a))
    ensures After(s, ReleaseSteps(p, a)) == s.(files := s.files - {a}).Goes(p, s.At(p))
  {
    var job := s.At(p).job;
    var x, y, z := [Action(p, Pick(a)), Action(p, Lock)], [Action(p, Read), Action(p, Remove)], [Action(p, Unlock)];
    PickAndLock(s, p, a);
    var s2 := After(s, x);
    ReadAndRemove(s2, p, a);
    RunsThen(s, x, y);
    var s4 := After(s2, y);
    OneStep(s4, Action(p, Unlock));
    RunsThen(s, x + y, z);
    var base := s.(files := s.files - {a});
    GoesOn(base.(lock := Some(p)), p, Reading(job, a), Unlocking(job));
    GoesOn(base, p, Unlocking(job), Dropping(job));
  }

  function FreeSteps(p: Proc, key: Key, a: Addr): seq<Action> {
    [Action(p, Start(key, Free))] + ReleaseSteps(p, a) + [Action(p, End)]
  }

  /** A Free with nothing in its way. */
  lemma FreeRuns(s: State, p: Proc, key: Key, a: Addr)
    requires s.At(p).Idle? && s.lock == None && key != "" && a in s.files && s.Holder(a) == key
    ensures Runs(s, FreeSteps(p, key, a)) && NoReap(FreeSteps(p, key, a))
    ensures After(s, FreeSteps(p, key, a)) == s.(files := s.files - {a}).Goes(p, Idle)
  {
    var start := Action(p, Start(key, Free));
    var s1 := Do(s, start);
    OneStep(s, start);
    ReleaseRuns(s1, p, a);
    RunsThen(s, [start], ReleaseSteps(p, a));
    OneStep(After(s1, ReleaseSteps(p, a)), Action(p, End));
    GoesOn(s.(files := s.files - {a}), p, s1.At(p), s1.At(p));
    GoesOn(s.(files := s.files - {a}), p, s1.At(p), Idle);
    RunsThen(s, [start] + ReleaseSteps(p, a), [Action(p, End)]);
  }

  function KeepSteps(p: Proc, key: Key, a: Addr, ino: Inode): seq<Action> {
    [Action(p, Start(key, Keep(a))), Action(p, Create(a, ino))] + [Action(p, Write)]
  }

  /** A Keep up to its reservation, with nothing in its way. */
  lemma KeepRuns(s: State, p: Proc, key: Key, a: Addr, ino: Inode)
    requires s.At(p).Idle? && key != "" && a !in s.files && ino !in s.content
    ensures Runs(s, KeepSteps(p, key, a, ino)) && NoReap(KeepSteps(p, key, a, ino))
    ensures After(s, KeepSteps(p, key, a, ino))
         == s.(files := s.files[a := ino], content := s.content[ino := key]).Goes(p, Dropping(Job(key, Keep(a))))
  {
    var start, create, write := Action(p, Start(key, Keep(a))), Action(p, Create(a, ino)), Action(p, Write);
    var s2 := Do(Do(s, start), create);
    TwoSteps(s, start, create);
    OneStep(s2, write);
    RunsThen(s, [start, create], [write]);
  }

  /**
   Between the two steps of a Reap the address may be released, and reserved for another key, whose file it
   then removes: whatever the store, as long as it has the reservation Reap read.
   */
  lemma ReapMayLoseAReservation(s: State, a: Addr, p: Proc, q: Proc, r: Proc, key: Key, ino: Inode)
    requires Inv(s) && s.lock == None && s.At(p).Idle? && s.At(q).Idle? && s.At(r).Idle? && p != q && p != r && q != r
    requires s.Holder(a) != "" && key != "" && ino !in s.content
    ensures var s1 := Do(s, Action(p, ReapRead(a)));
            var acts := FreeSteps(q, s.Holder(a), a) + KeepSteps(r, key, a, ino);
            && Runs(s1, acts) && After(s1, acts).Holder(a) == key && After(s1, acts).At(p).Reaping?
            && Do(After(s1, acts), Action(p, ReapRemove)).Holder(a) == ""
  {
    var s1 := Do(s, Action(p, ReapRead(a)));
    FreeRuns(s1, q, s.Holder(a), a);
    var s2 := After(s1, FreeSteps(q, s.Holder(a), a));
    KeepRuns(s2, r, key, a, ino);
    RunsThen(s1, FreeSteps(q, s.Holder(a), a), KeepSteps(r, key, a, ino));
  }

  // ---------------------------------------------------------------- two calls of one key

  function FindSteps(p: Proc, key: Key, c: Call, x: Addr): seq<Action> {
    [Action(p, Start(key, c)), Action(p, Find(x))]
  }

  lemma FindRuns(s: State, p: Proc, key: Key, c: Call, x: Addr)
    requires s.At(p).Idle? && key != "" && c.Finds(x) && s.Holder(x) == key
    ensures Runs(s, FindSteps(p, key, c, x)) && After(s, FindSteps(p, key, c, x)) == s.Goes(p, Dropping(Job(key, c)))
  {
    TwoSteps(s, Action(p, Start(key, c)), Action(p, Find(x)));
    GoesOn(s, p, Looking(Job(key, c)), Dropping(Job(key, c)));
  }

  /** An Allocate that draws an address, with nothing in its way, up to the releases. */
  function DrawSteps(p: Proc, key: Key, c: Call, x: Addr, ino: Inode): seq<Action> {
    [Action(p, Start(key, c)), Action(p, Create(x, ino))] + [Action(p, Write), Action(p, Find(x))]
  }

  lemma DrawRuns(s: State, p: Proc, key: Key, c: Call, x: Addr, ino: Inode)
    requires s.At(p).Idle? && key != "" && c.Allocate? && c.Spares(x) && x !in s.files && ino !in s.content
    ensures Runs(s, DrawSteps(p, key, c, x, ino))
    ensures After(s, DrawSteps(p, key, c, x, ino))
         == s.(files := s.files[x := ino], content := s.content[ino := key]).Goes(p, Dropping(Job(key, Later(c))))
  {
    var start, create := Action(p, Start(key, c)), Action(p, Create(x, ino));
    var made := s.(files := s.files[x := ino], content := s.content[ino := ""]);
    TwoSteps(s, start, create);
    GoesOn(made, p, Looking(Job(key, c)), Writing(Job(key, c), x, ino));
    WriteAndFind(made.Goes(p, Writing(Job(key, c), x, ino)), p, key, c, x, ino);
    RunsThen(s, [start, create], [Action(p, Write), Action(p, Find(x))]);
    assert s.content[ino := ""][ino := key] == s.content[ino := key];
    GoesOn(s.(files := s.files[x := ino], content := s.content[ino := key]), p, Writing(Job(key, c), x, ino),
           Dropping(Job(key, Later(c))));
  }

  lemma WriteAndFind(s: State, p: Proc, key: Key, c: Call, x: Addr, ino: Inode)
    requires s.At(p) == Writing(Job(key, c), x, ino) && c.Allocate? && c.Spares(x) && s.Names(x, ino)
    ensures var acts := [Action(p, Write), Action(p, Find(x))];
            Runs(s, acts) &&
                After(s, acts) == s.(content := s.content[ino := key]).Goes(p, Dropping(Job(key, Later(c))))
  {
    TwoSteps(s, Action(p, Write), Action(p, Find(x)));
    GoesOn(s.(content := s.content[ino := key]), p, Looking(Job(key, Later(c))), Dropping(Job(key, Later(c))));
  }

  function ReleaseBoth(p: Proc, q: Proc, f: Addr, g: Addr): seq<Action> {
    ReleaseSteps(p, g) + ReleaseSteps(q, f)
  }

  /** Two calls that found an address of the key each, which the other does not spare, leave it with none of the two. */
  lemma BothRelease(s: State, p: Proc, q: Proc, key: Key, c: Call, d: Call, f: Addr, g: Addr)
    requires s.lock == None && p != q && key != "" && s.At(p) == Dropping(Job(key, c)) &&
             s.At(q) == Dropping(Job(key, d))
    requires c.Finds(f) && !d.Spares(f) && d.Finds(g) && !c.Spares(g)
    requires s.Holder(f) == s.Holder(g) == key && forall x :: s.Holder(x) == key ==> x == f || x == g
    ensures Runs(s, ReleaseBoth(p, q, f, g)) && !HoldsOne(After(s, ReleaseBoth(p, q, f, g)), key)
  {
    var z, w := ReleaseSteps(p, g), ReleaseSteps(q, f);
    ReleaseRuns(s, p, g);
    var s1 := After(s, z);
    ReleaseRuns(s1, q, f);
    RunsThen(s, z, w);
    NoneLeft(s, After(s1, w), key, f, g);
  }

  lemma NoneLeft(s: State, t: State, key: Key, f: Addr, g: Addr)
    requires key != "" && t.files == s.files - {g} - {f} && t.content == s.content
    requires forall x :: s.Holder(x) == key ==> x == f || x == g
    ensures !HoldsOne(t, key)
  {
    forall x ensures t.Holder(x) != key {
      assert t.Holder(x) == "" || t.Holder(x) == s.Holder(x);
    }
  }

  /**
   A Keep or a DropStale with another of them, on a key holding exactly an address only the first spares and one
   only the second does: each releases the address of the other.
   */
  lemma TwoCallsLeaveNone(s: State, p: Proc, q: Proc, key: Key, c: Call, d: Call, f: Addr, g: Addr)
    requires s.lock == None && s.At(p).Idle? && s.At(q).Idle? && p != q && key != ""
    requires c.Finds(f) && !d.Spares(f) && d.Finds(g) && !c.Spares(g)
    requires s.Holder(f) == s.Holder(g) == key && forall x :: s.Holder(x) == key ==> x == f || x == g
    ensures var acts := FindSteps(p, key, c, f) + FindSteps(q, key, d, g) + ReleaseBoth(p, q, f, g);
            Runs(s, acts) && !HoldsOne(After(s, acts), key)
  {
    var x, y := FindSteps(p, key, c, f), FindSteps(q, key, d, g);
    FindRuns(s, p, key, c, f);
    FindRuns(After(s, x), q, key, d, g);
    RunsThen(s, x, y);
    var t := After(s, x + y);
    forall b ensures t.Holder(b) == s.Holder(b) { assert t.files == s.files && t.content == s.content; }
    BothRelease(t, p, q, key, c, d, f, g);
    RunsThen(s, x + y, ReleaseBoth(p, q, f, g));
  }

  /** An Allocate with a Keep or a DropStale, on a key holding exactly an address only the second spares. */
  lemma AllocateLeavesNone(s: State, p: Proc, q: Proc, key: Key, c: Call, d: Call, f: Addr, g: Addr, ino: Inode)
    requires s.lock == None && s.At(p).Idle? && s.At(q).Idle? && p != q && key != ""
    requires c.Allocate? && c.Spares(f) && !d.Spares(f) && d.Finds(g) && !c.Spares(g) && f !in s.files &&
             ino !in s.content
    requires (forall x :: x in s.files ==> s.files[x] in s.content) && s.Holder(g) == key && forall x ::
             s.Holder(x) == key ==> x == g
    ensures var acts := DrawSteps(p, key, c, f, ino) + FindSteps(q, key, d, g) + ReleaseBoth(p, q, f, g);
            Runs(s, acts) && !HoldsOne(After(s, acts), key)
  {
    var x, y := DrawSteps(p, key, c, f, ino), FindSteps(q, key, d, g);
    DrawRuns(s, p, key, c, f, ino);
    var s1 := After(s, x);
    HoldersAfterDraw(s, s1, key, f, ino);
    FindRuns(s1, q, key, d, g);
    RunsThen(s, x, y);
    var t := After(s, x + y);
    HoldersAfterDraw(s, t, key, f, ino);
    BothRelease(t, p, q, key, Later(c), d, f, g);
    RunsThen(s, x + y, ReleaseBoth(p, q, f, g));
  }

  lemma HoldersAfterDraw(s: State, t: State, key: Key, f: Addr, ino: Inode)
    requires (forall x :: x in s.files ==> s.files[x] in s.content) && f !in s.files && ino !in s.content
    requires t.files == s.files[f := ino] && t.content == s.content[ino := key]
    ensures forall b :: t.Holder(b) == if b == f then key else s.Holder(b)
  {
  }

  // ---------------------------------------------------------------- exactly which two calls are safe

  /** What a call goes on as once its address is reserved. */
  function Later(c: Call): Call {
    if c.Allocate? then DropStale(c.ranges) else c
  }

  ghost predicate RunsOnly(s: State, key: Key, c: Call, d: Call) {
    forall p :: WorksFor(s, p, key) ==> s.At(p).job.call in {c, Later(c), d, Later(d)}
  }

  /** The calls of the key are these two, run any number of times by any number of processes. */
  ghost predicate AlwaysRunsOnly(s: State, acts: seq<Action>, key: Key, c: Call, d: Call)
    requires Runs(s, acts)
    decreases |acts|
  {
    && RunsOnly(s, key, c, d)
    && (acts == [] || (Harmless(s, acts[0], key) && AlwaysRunsOnly(Do(s, acts[0]), acts[1..], key, c, d)))
  }

  /** The run leaves the key without the address it held, though it runs these two calls of it only. */
  ghost predicate LeavesNone(s: State, acts: seq<Action>, key: Key, c: Call, d: Call) {
    && Inv(s) && Anchored(s, key) && HoldsOne(s, key)
    && Runs(s, acts) && AlwaysRunsOnly(s, acts, key, c, d) && !HoldsOne(After(s, acts), key)
  }

  ghost predicate NeverLeaveNone(c: Call, d: Call) {
    forall s: State, acts: seq<Action>, key: Key :: !LeavesNone(s, acts, key, c, d)
  }

  lemma NestedLater(c: Call, d: Call)
    requires Nested(c, d)
    ensures forall x, y :: x in {c, Later(c), d, Later(d)} && y in {c, Later(c), d, Later(d)} ==> Nested(x, y)
  {
    forall x, y | x in {c, Later(c), d, Later(d)} && y in {c, Later(c), d, Later(d)} ensures Nested(x, y) {
      assert forall b :: Later(c).Spares(b) == c.Spares(b) && Later(d).Spares(b) == d.Spares(b);
      if Within(c, d) { assert Within(x, y) || Within(y, x); } else { assert Within(x, y) || Within(y, x); }
    }
  }

  lemma {:induction false} NestedIsOrderly(s: State, acts: seq<Action>, key: Key, c: Call, d: Call)
    requires Runs(s, acts) && AlwaysRunsOnly(s, acts, key, c, d) && Nested(c, d) && !c.Free? && !d.Free?
    ensures AlwaysOrderly(s, acts, key)
    decreases |acts|
  {
    NestedLater(c, d);
    if acts == [] {
    } else {
      NestedIsOrderly(Do(s, acts[0]), acts[1..], key, c, d);
    }
  }

  lemma {:induction false} EitherOrder(s: State, acts: seq<Action>, key: Key, c: Call, d: Call)
    requires Runs(s, acts) && AlwaysRunsOnly(s, acts, key, c, d)
    ensures AlwaysRunsOnly(s, acts, key, d, c)
    decreases |acts|
  {
    if acts == [] {
    } else {
      EitherOrder(Do(s, acts[0]), acts[1..], key, c, d);
    }
  }

  /** Whatever starts is one of the two calls, and no file is removed by Reap. */
  ghost predicate StartsOnly(acts: seq<Action>, c: Call, d: Call) {
    && NoReap(acts)
    && forall i :: 0 <= i < |acts| && acts[i].step.Start? ==> acts[i].step.call == c || acts[i].step.call == d
  }

  lemma StartsOnlyThen(a: seq<Action>, b: seq<Action>, c: Call, d: Call)
    requires StartsOnly(a, c, d) && StartsOnly(b, c, d)
    ensures StartsOnly(a + b, c, d)
  {
  }

  lemma ReleasesStartNothing(p: Proc, q: Proc, f: Addr, g: Addr, c: Call, d: Call)
    ensures StartsOnly(ReleaseBoth(p, q, f, g), c, d)
  {
    StartsOnlyThen(ReleaseSteps(p, g), ReleaseSteps(q, f), c, d);
  }

  lemma StepRunsOnly(s: State, act: Action, key: Key, c: Call, d: Call)
    requires Enabled(s, act) && RunsOnly(s, key, c, d) && (act.step.Start? ==> act.step.call == c || act.step.call == d)
    ensures RunsOnly(Do(s, act), key, c, d)
  {
    var t := Do(s, act);
    forall p | WorksFor(t, p, key) ensures t.At(p).job.call in {c, Later(c), d, Later(d)} {
      if p != act.p {
        assert t.At(p) == s.At(p) && WorksFor(s, p, key);
      } else if !act.step.Start? {
        assert WorksFor(s, p, key);
      }
    }
  }

  lemma {:induction false} StartsOnlyRunsOnly(s: State, acts: seq<Action>, key: Key, c: Call, d: Call)
    requires Runs(s, acts) && RunsOnly(s, key, c, d) && StartsOnly(acts, c, d)
    ensures AlwaysRunsOnly(s, acts, key, c, d)
    decreases |acts|
  {
    if acts == [] {
    } else {
      StepRunsOnly(s, acts[0], key, c, d);
      StartsOnlyRunsOnly(Do(s, acts[0]), acts[1..], key, c, d);
    }
  }

  /** A store with one address of a key, or two, and no call running. */
  function OneHeld(key: Key, g: Addr): State {
    State(map[g := 1], map[1 := key], None, map[])
  }

  function TwoHeld(key: Key, f: Addr, g: Addr): State {
    State(map[f := 0, g := 1], map[0 := key, 1 := key], None, map[])
  }

  lemma QuietStore(s: State, key: Key, x: Addr)
    requires s == OneHeld(key, x) || exists f :: f != x && s == TwoHeld(key, f, x)
    requires key != ""
    ensures Inv(s) && Anchored(s, key) && HoldsOne(s, key)
  {
    assert s.Holder(x) == key;
    assert Spared(s, key, x);
  }

  lemma TwoHeldHolders(key: Key, f: Addr, g: Addr)
    requires f != g && key != ""
    ensures var s := TwoHeld(key, f, g);
            s.Holder(f) == key && s.Holder(g) == key && forall x :: s.Holder(x) == key ==> x == f || x == g
  {
  }

  /** The steps of two calls that find an address each, and release that of the other, start the two calls only. */
  lemma FindersStartOnly(key: Key, c: Call, d: Call, f: Addr, g: Addr)
    ensures StartsOnly(FindSteps(0, key, c, f) + FindSteps(1, key, d, g) + ReleaseBoth(0, 1, f, g), c, d)
  {
    StartsOnlyThen(FindSteps(0, key, c, f), FindSteps(1, key, d, g), c, d);
    ReleasesStartNothing(0, 1, f, g, c, d);
    StartsOnlyThen(FindSteps(0, key, c, f) + FindSteps(1, key, d, g), ReleaseBoth(0, 1, f, g), c, d);
  }

  lemma TwoCallsAreNotSafe(c: Call, d: Call, f: Addr, g: Addr, key: Key)
    requires c.Finds(f) && !d.Spares(f) && d.Finds(g) && !c.Spares(g) && key != ""
    ensures !NeverLeaveNone(c, d)
  {
    var s := TwoHeld(key, f, g);
    var acts := FindSteps(0, key, c, f) + FindSteps(1, key, d, g) + ReleaseBoth(0, 1, f, g);
    QuietStore(s, key, g);
    TwoHeldHolders(key, f, g);
    TwoCallsLeaveNone(s, 0, 1, key, c, d, f, g);
    FindersStartOnly(key, c, d, f, g);
    StartsOnlyRunsOnly(s, acts, key, c, d);
    assert LeavesNone(s, acts, key, c, d);
  }

  lemma AllocateIsNotSafe(c: Call, d: Call, f: Addr, g: Addr, key: Key)
    requires c.Allocate? && c.Spares(f) && !d.Spares(f) && d.Finds(g) && !c.Spares(g) && key != ""
    ensures !NeverLeaveNone(c, d)
  {
    var s := OneHeld(key, g);
    var acts := DrawSteps(0, key, c, f, 0) + FindSteps(1, key, d, g) + ReleaseBoth(0, 1, f, g);
    QuietStore(s, key, g);
    AllocateLeavesNone(s, 0, 1, key, c, d, f, g, 0);
    StartsOnlyThen(DrawSteps(0, key, c, f, 0), FindSteps(1, key, d, g), c, d);
    ReleasesStartNothing(0, 1, f, g, c, d);
    StartsOnlyThen(DrawSteps(0, key, c, f, 0) + FindSteps(1, key, d, g), ReleaseBoth(0, 1, f, g), c, d);
    StartsOnlyRunsOnly(s, acts, key, c, d);
    assert LeavesNone(s, acts, key, c, d);
  }

  lemma NotNestedIsNotSafe(c: Call, d: Call)
    requires !c.Free? && (d.Keep? || d.DropStale?) && !Nested(c, d)
    ensures !NeverLeaveNone(c, d)
  {
    var f :| c.Spares(f) && !d.Spares(f);
    var g :| d.Spares(g) && !c.Spares(g);
    if c.Allocate? { AllocateIsNotSafe(c, d, f, g, "k"); } else { TwoCallsAreNotSafe(c, d, f, g, "k"); }
  }

  lemma NestedIsSafe(c: Call, d: Call)
    requires !c.Free? && !d.Free? && Nested(c, d)
    ensures NeverLeaveNone(c, d)
  {
    forall s: State, acts: seq<Action>, key: Key ensures !LeavesNone(s, acts, key, c, d) {
      if Inv(s) && Anchored(s, key) && HoldsOne(s, key) && Runs(s, acts) && AlwaysRunsOnly(s, acts, key, c, d) {
        NestedIsOrderly(s, acts, key, c, d);
        KeyIsNeverLeftWithout(s, acts, key);
      }
    }
  }

  lemma SafeInEitherOrder(c: Call, d: Call)
    requires NeverLeaveNone(c, d)
    ensures NeverLeaveNone(d, c)
  {
    forall s: State, acts: seq<Action>, key: Key ensures !LeavesNone(s, acts, key, d, c) {
      assert !LeavesNone(s, acts, key, c, d);
      if Runs(s, acts) && AlwaysRunsOnly(s, acts, key, d, c) { EitherOrder(s, acts, key, d, c); }
    }
  }

  /**
   Two calls of one key, none a Free and not both an Allocate, never leave it without an address, over any interleaving
   with each other and with the calls of the other keys, exactly when the addresses one spares are spared by the other.
   */
  lemma SafeExactlyWhenNested(c: Call, d: Call)
    requires !c.Free? && !d.Free? && !(c.Allocate? && d.Allocate?)
    ensures NeverLeaveNone(c, d) <==> Nested(c, d)
  {
    if Nested(c, d) {
      NestedIsSafe(c, d);
    } else if d.Allocate? {
      NotNestedIsNotSafe(d, c);
      if NeverLeaveNone(c, d) { SafeInEitherOrder(c, d); }
    } else {
      NotNestedIsNotSafe(c, d);
    }
  }

  /** A Keep of an address out of the ranges, with a DropStale or DropReplaced of ranges that hold one, is not safe. */
  lemma KeepOutOfRangesIsNotSafe(a: Addr, b: Addr, ranges: Addr -> bool)
    requires !ranges(a) && ranges(b)
    ensures !NeverLeaveNone(Keep(a), DropStale(ranges))
  {
    assert Keep(a).Spares(a) && DropStale(ranges).Spares(b);
    SafeExactlyWhenNested(Keep(a), DropStale(ranges));
  }
}
