/**
 The flag file of an object, its changes running at once (core/flagfile/main.go).

 SetWith, Raise, Keep, Lower and Unset are taken step by step, any number of them interleaved in any
 order, any of them stopping at any step, which gives its lock back and closes its files. A file has
 an inode, which a later file may take once no name and no open file holds it, and a serial number,
 which no two files share and no process sees: it says which file is which.
 */
module Flag {
  import opened Text

  type Proc = nat
  type Inode = nat
  type Serial = nat

  datatype Point =
    | Idle
    // SetWith
    | SetMissing(b: string)
    | SetLocked(b: string)
    | SetCreating(b: string)
    | SetWriting(b: string, ino: Inode)
    // Raise
    | RaiseLocking
    | RaiseLocked
    | RaiseLeaving(ino: Inode, serial: Serial)
    | Raised(ino: Inode, serial: Serial)
    // Lower
    | LowerLocking(ino: Inode, serial: Serial)
    | LowerLocked(ino: Inode, serial: Serial)
    | LowerSame(ino: Inode, serial: Serial)
    | LowerRemoving(ino: Inode, serial: Serial)
    // Unset
    | UnsetLocking
    | UnsetLocked
    | UnsetRemoving
    // about to give the lock back, an open file closed with it
    | Leaving(open: Option<Inode>)
  {
    /** The file the process holds open. */
    function Open(): Option<Inode> {
      match this
      case SetWriting(_, ino) => Some(ino)
      case RaiseLeaving(ino, _) => Some(ino)
      case Raised(ino, _) => Some(ino)
      case LowerLocking(ino, _) => Some(ino)
      case LowerLocked(ino, _) => Some(ino)
      case LowerSame(ino, _) => Some(ino)
      case LowerRemoving(ino, _) => Some(ino)
      case Leaving(open) => open
      case _ => None
    }

    predicate Critical() {
      SetLocked? || SetCreating? || SetWriting? || RaiseLocked? || RaiseLeaving? || LowerLocked? || LowerSame?
      || LowerRemoving? || UnsetLocked? || UnsetRemoving? || Leaving?
    }

    /** The process holds a file its Raise created, which it knows by its inode. */
    predicate FromRaise() {
      RaiseLeaving? || Raised? || LowerLocking? || LowerLocked? || LowerSame? || LowerRemoving?
    }
  }

  datatype File = File(content: string, serial: Serial)

  /** What the path names, the files by inode, the serial of the next file, and who holds the lock. */
  datatype State = State(
    link: Option<Inode>,
    files: map<Inode, File>,
    next: Serial,
    lock: Option<Proc>,
    at: map<Proc, Point>)
  {
    function At(p: Proc): Point {
      if p in at then at[p] else Idle
    }

    function Goes(p: Proc, point: Point): State {
      this.(at := at[p := point])
    }

    function Unlocked(p: Proc): State {
      if lock == Some(p) then this.(lock := None) else this
    }

    /** A file created at the path. */
    function Created(ino: Inode): State {
      this.(link := Some(ino), files := files[ino := File("", next)], next := next + 1)
    }

    /** The content of a file written over. */
    function Filled(ino: Inode, b: string): State {
      if ino in files then this.(files := files[ino := files[ino].(content := b)]) else this
    }

    /** No name and no process holds the inode. */
    ghost predicate Spare(ino: Inode) {
      link != Some(ino) && forall p :: At(p).Open() != Some(ino)
    }

    /** The file raised at the path. */
    ghost function Current(): File
      requires link.Some? && link.value in files
    {
      files[link.value]
    }
  }

  const START := State(None, map[], 0, None, map[])

  datatype Step =
    | CallSet(b: string) | CallRaise | CallUnset | CallKeep | CallLower
    | Lock | Check | Create(ino: Inode) | Write | Compare | Remove | Leave | Stop

  /** One step of one process. */
  datatype Action = Action(p: Proc, step: Step)

  ghost predicate Enabled(s: State, act: Action) {
    var here := s.At(act.p);
    match act.step
    case CallSet(_) => here.Idle?
    case CallRaise => here.Idle?
    case CallUnset => here.Idle?
    case Lock => (here.SetMissing? || here.RaiseLocking? || here.LowerLocking? || here.UnsetLocking?) && s.lock == None
    case Check => here.SetLocked? || here.LowerSame? || here.UnsetLocked?
    case Create(ino) => (here.SetCreating? || here.RaiseLocked?) && s.Spare(ino)
    case Write => here.SetWriting?
    case CallKeep => here.Raised?
    case CallLower => here.Raised?
    case Compare => here.LowerLocked?
    case Remove => here.LowerRemoving? || here.UnsetRemoving?
    case Leave => here.RaiseLeaving? || here.Leaving?
    case Stop => true
  }

  ghost function Do(s: State, act: Action): State
    requires Enabled(s, act)
  {
    var p := act.p;
    var here := s.At(p);
    match act.step
    case CallSet(b) => if s.link.Some? then s else s.Goes(p, SetMissing(b))
    case CallRaise => s.Goes(p, RaiseLocking)
    case CallUnset => if s.link.None? then s else s.Goes(p, UnsetLocking)
    case Lock =>
      var t := s.(lock := Some(p));
      (match here
       case SetMissing(b) => t.Goes(p, SetLocked(b))
       case LowerLocking(ino, serial) => t.Goes(p, LowerLocked(ino, serial))
       case UnsetLocking => t.Goes(p, UnsetLocked)
       case _ => t.Goes(p, RaiseLocked))
    case Check =>
      (match here
       case SetLocked(b) => s.Goes(p, if s.link.Some? then Leaving(None) else SetCreating(b))
       case LowerSame(ino, serial) => s.Goes(p, if s.link.Some? then LowerRemoving(ino, serial) else Leaving(Some(ino)))
       case _ => s.Goes(p, if s.link.Some? then UnsetRemoving else Leaving(None)))
    case Create(ino) =>
      if here.RaiseLocked? then
        // exclusive
        if s.link.Some? then s.Goes(p, Leaving(None)) else s.Created(ino).Goes(p, RaiseLeaving(ino, s.next))
      else
        // truncating
        if s.link.Some? then
          s.Filled(s.link.value, "").Goes(p, SetWriting(here.b, s.link.value))
        else s.Created(ino).Goes(p, SetWriting(here.b, ino))
    case Write =>
      s.Filled(here.ino, here.b).Goes(p, Leaving(Some(here.ino)))
    case CallKeep => s.Goes(p, Idle)
    case CallLower => s.Goes(p, LowerLocking(here.ino, here.serial))
    case Compare =>
      s.Goes(p, if s.link == Some(here.ino) then LowerSame(here.ino, here.serial) else Leaving(Some(here.ino)))
    case Remove => s.(link := None).Goes(p, Leaving(here.Open()))
    case Leave => s.Unlocked(p).Goes(p, if here.RaiseLeaving? then Raised(here.ino, here.serial) else Idle)
    case Stop => s.Unlocked(p).Goes(p, Idle)
  }

  // ---------------------------------------------------------------- what every step keeps

  ghost predicate PointHolds(s: State, p: Proc) {
    var here := s.At(p);
    && (here.Critical() ==> s.lock == Some(p))
    && (here.SetCreating? ==> s.link == None)
    && (here.SetWriting? ==> s.link == Some(here.ino))
    && (here.FromRaise() ==> here.ino in s.files && s.files[here.ino].serial == here.serial)
    && (here.LowerSame? || here.LowerRemoving? ==> s.link == Some(here.ino))
    && (here.UnsetRemoving? ==> s.link.Some?)
  }

  ghost predicate Inv(s: State) {
    && (s.link.Some? ==> s.link.value in s.files)
    && (forall i :: i in s.files ==> s.files[i].serial < s.next)
    && (forall i, j :: i in s.files && j in s.files && i != j ==> s.files[i].serial != s.files[j].serial)
    && (forall p :: PointHolds(s, p))
  }

  lemma StepKeepsFiles(s: State, act: Action)
    requires Inv(s) && Enabled(s, act)
    ensures var t := Do(s, act);
            && (t.link.Some? ==> t.link.value in t.files)
            && (forall i :: i in t.files ==> t.files[i].serial < t.next)
            && (forall i, j :: i in t.files && j in t.files && i != j ==> t.files[i].serial != t.files[j].serial)
  {
    assert PointHolds(s, act.p);
  }

  lemma CreateKeepsItself(s: State, act: Action)
    requires Inv(s) && Enabled(s, act) && (act.step.Create? || act.step.Write?)
    ensures PointHolds(Do(s, act), act.p)
  {
    assert PointHolds(s, act.p);
  }

  lemma CheckKeepsItself(s: State, act: Action)
    requires Inv(s) && Enabled(s, act) && (act.step.Lock? || act.step.Check? || act.step.Compare?)
    ensures PointHolds(Do(s, act), act.p)
  {
    assert PointHolds(s, act.p);
  }

  lemma StepKeepsItself(s: State, act: Action)
    requires Inv(s) && Enabled(s, act)
    ensures PointHolds(Do(s, act), act.p)
  {
    match act.step
    case Create(_) => CreateKeepsItself(s, act);
    case Write => CreateKeepsItself(s, act);
    case Lock => CheckKeepsItself(s, act);
    case Check => CheckKeepsItself(s, act);
    case Compare => CheckKeepsItself(s, act);
    case _ => assert PointHolds(s, act.p);
  }

  lemma StepKeepsOthers(s: State, act: Action, q: Proc)
    requires Inv(s) && Enabled(s, act) && q != act.p
    ensures PointHolds(Do(s, act), q)
  {
    assert PointHolds(s, q) && PointHolds(s, act.p);
    assert Do(s, act).At(q) == s.At(q);
  }

  lemma StepKeepsInv(s: State, act: Action)
    requires Inv(s) && Enabled(s, act)
    ensures Inv(Do(s, act))
  {
    StepKeepsFiles(s, act);
    forall q ensures PointHolds(Do(s, act), q) {
      if q == act.p { StepKeepsItself(s, act); } else { StepKeepsOthers(s, act, q); }
    }
  }

  /** The truncating create never runs on a flag raised. */
  lemma CreateNeverTruncates(s: State, act: Action)
    requires Inv(s) && Enabled(s, act) && act.step.Create? && s.At(act.p).SetCreating?
    ensures s.link == None && Do(s, act).link == Some(act.step.ino) && Do(s, act).Current() == File("", s.next)
  {
    assert PointHolds(s, act.p);
  }

  /** The file compared by its inode is the very file the Raise created, and no other. */
  lemma SameInodeIsSameFile(s: State, p: Proc)
    requires Inv(s) && s.At(p).FromRaise()
    ensures s.link == Some(s.At(p).ino) <==> s.link.Some? && s.Current().serial == s.At(p).serial
  {
    assert PointHolds(s, p);
  }

  /** Lower removes the file its own Raise created. */
  lemma LowerRemovesItsOwn(s: State, act: Action)
    requires Inv(s) && Enabled(s, act) && act.step.Remove? && s.At(act.p).LowerRemoving?
    ensures s.link.Some? && s.Current().serial == s.At(act.p).serial && Do(s, act).link == None
  {
    assert PointHolds(s, act.p);
  }

  /** A flag is raised, and the call raising it is past writing its content. */
  ghost predicate Settled(s: State) {
    s.link.Some? && forall p :: !s.At(p).SetWriting?
  }

  /** The step takes the flag away: an Unset, or the Lower of the Raise that created it. */
  ghost predicate Lowers(s: State, act: Action) {
    act.step.Remove? && s.link.Some? && s.link.value in s.files
    && (s.At(act.p).UnsetRemoving? || (s.At(act.p).LowerRemoving? && s.At(act.p).serial == s.Current().serial))
  }

  /** A settled flag keeps its file and its content in every step, but the one taking it away. */
  lemma StepKeepsFlag(s: State, act: Action)
    requires Inv(s) && Enabled(s, act) && Settled(s)
    ensures var t := Do(s, act);
            (Settled(t) && t.link == s.link && t.link.value in t.files && t.Current() == s.Current()) || Lowers(s, act)
  {
    assert PointHolds(s, act.p);
    var t := Do(s, act);
    if !act.step.Remove? {
      forall p ensures !t.At(p).SetWriting? {
        assert !s.At(p).SetWriting?;
        assert !s.At(act.p).SetWriting?;
      }
    }
  }

  // ---------------------------------------------------------------- every interleaving

  ghost predicate Runs(s: State, acts: seq<Action>)
    decreases |acts|
  {
    acts == [] || (Enabled(s, acts[0]) && Runs(Do(s, acts[0]), acts[1..]))
  }

  ghost function After(s: State, acts: seq<Action>): State
    requires Runs(s, acts)
    decreases |acts|
  {
    if acts == [] then s else After(Do(s, acts[0]), acts[1..])
  }

  lemma {:induction false} RunKeepsInv(s: State, acts: seq<Action>)
    requires Inv(s) && Runs(s, acts)
    ensures Inv(After(s, acts))
    decreases |acts|
  {
    if acts == [] {
    } else {
      StepKeepsInv(s, acts[0]);
      RunKeepsInv(Do(s, acts[0]), acts[1..]);
    }
  }

  /** What is said of every reachable state is said from START. */
  lemma Reachable(acts: seq<Action>)
    requires Runs(START, acts)
    ensures Inv(After(START, acts))
  {
    RunKeepsInv(START, acts);
  }

  ghost predicate Lowered(s: State, acts: seq<Action>)
    requires Runs(s, acts)
    decreases |acts|
  {
    acts != [] && (Lowers(s, acts[0]) || Lowered(Do(s, acts[0]), acts[1..]))
  }

  /** The flag raised is this file, with its content. */
  ghost predicate Is(s: State, f: File) {
    s.link.Some? && s.link.value in s.files && s.Current() == f
  }

  /** The file of the serial is not the flag raised, and no later file has it. */
  ghost predicate Past(s: State, serial: Serial) {
    serial < s.next && (s.link.Some? && s.link.value in s.files ==> s.Current().serial != serial)
  }

  lemma StepKeepsPast(s: State, act: Action, serial: Serial)
    requires Inv(s) && Enabled(s, act) && Past(s, serial)
    ensures Past(Do(s, act), serial)
  {
    assert PointHolds(s, act.p);
  }

  /** A file taken away never is the flag again. */
  lemma {:induction false} NeverRaisedAgain(s: State, acts: seq<Action>, serial: Serial)
    requires Inv(s) && Runs(s, acts) && Past(s, serial)
    ensures Past(After(s, acts), serial)
    decreases |acts|
  {
    if acts == [] {
    } else {
      StepKeepsInv(s, acts[0]);
      StepKeepsPast(s, acts[0], serial);
      NeverRaisedAgain(Do(s, acts[0]), acts[1..], serial);
    }
  }

  lemma LoweredIsPast(s: State, act: Action)
    requires Inv(s) && Enabled(s, act) && Settled(s) && Lowers(s, act)
    ensures Past(Do(s, act), s.Current().serial)
  {
  }

  /** Over any run, a settled flag is the same file with the same content exactly when no step took it away. */
  lemma {:induction false} FlagStaysExactly(s: State, acts: seq<Action>)
    requires Inv(s) && Runs(s, acts) && Settled(s)
    ensures Is(After(s, acts), s.Current()) <==> !Lowered(s, acts)
    ensures !Lowered(s, acts) ==> After(s, acts).link == s.link
    decreases |acts|
  {
    if acts == [] {
    } else {
      StepKeepsInv(s, acts[0]);
      if Lowers(s, acts[0]) {
        LoweredIsPast(s, acts[0]);
        NeverRaisedAgain(Do(s, acts[0]), acts[1..], s.Current().serial);
      } else {
        StepKeepsFlag(s, acts[0]);
        FlagStaysExactly(Do(s, acts[0]), acts[1..]);
      }
    }
  }

  // ---------------------------------------------------------------- calls with nothing in their way

  lemma RunsOn(s: State, act: Action, rest: seq<Action>)
    requires Enabled(s, act) && Runs(Do(s, act), rest)
    ensures Runs(s, [act] + rest) && After(s, [act] + rest) == After(Do(s, act), rest)
  {
    assert ([act] + rest)[1..] == rest;
  }

  /** The steps of one process, one after the other. */
  ghost function Steps(p: Proc, steps: seq<Step>): seq<Action> {
    if steps == [] then [] else [Action(p, steps[0])] + Steps(p, steps[1..])
  }

  lemma StepsOn(s: State, p: Proc, step: Step, rest: seq<Step>)
    requires Enabled(s, Action(p, step)) && Runs(Do(s, Action(p, step)), Steps(p, rest))
    ensures Runs(s, Steps(p, [step] + rest)) &&
            After(s, Steps(p, [step] + rest)) == After(Do(s, Action(p, step)), Steps(p, rest))
  {
    assert ([step] + rest)[1..] == rest;
    RunsOn(s, Action(p, step), Steps(p, rest));
  }

  const SET_REST: seq<Step> := [Write] + ([Leave] + [])

  /** SetWith alone raises a flag with its content. */
  lemma SetRaises(s: State, p: Proc, b: string, ino: Inode)
    requires Inv(s) && s.lock == None && s.At(p).Idle? && s.link == None && s.Spare(ino)
    ensures var acts := Steps(p, [CallSet(b)] + ([Lock] + ([Check] + ([Create(ino)] + SET_REST))));
            && Runs(s, acts)
            && After(s, acts).link == Some(ino) && After(s, acts).lock == None && After(s, acts).At(p).Idle?
            && ino in After(s, acts).files && After(s, acts).Current() == File(b, s.next)
  {
    var s1 := s.Goes(p, SetMissing(b));
    var s2 := s1.(lock := Some(p)).Goes(p, SetLocked(b));
    var s3 := s2.Goes(p, SetCreating(b));
    var s4 := s3.Created(ino).Goes(p, SetWriting(b, ino));
    var s5 := Do(s4, Action(p, Write));
    StepsOn(s5, p, Leave, []);
    StepsOn(s4, p, Write, [Leave] + []);
    assert forall q :: s3.At(q) == if q == p then SetCreating(b) else s.At(q);
    StepsOn(s3, p, Create(ino), SET_REST);
    StepsOn(s2, p, Check, [Create(ino)] + SET_REST);
    StepsOn(s1, p, Lock, [Check] + ([Create(ino)] + SET_REST));
    StepsOn(s, p, CallSet(b), [Lock] + ([Check] + ([Create(ino)] + SET_REST)));
  }

  const LOWER_REST: seq<Step> := [Compare] + ([Check] + ([Remove] + ([Leave] + [])))

  /** Lower alone takes the flag of its Raise away, while the flag is there. */
  lemma LowerLowers(s: State, p: Proc)
    requires Inv(s) && s.lock == None && s.At(p).Raised? && s.link == Some(s.At(p).ino)
    ensures var acts := Steps(p, [CallLower] + ([Lock] + LOWER_REST));
            Runs(s, acts) && After(s, acts).link == None && After(s, acts).lock == None && After(s, acts).At(p).Idle?
  {
    var ino, serial := s.At(p).ino, s.At(p).serial;
    var s1 := s.Goes(p, LowerLocking(ino, serial));
    var s2 := s1.(lock := Some(p)).Goes(p, LowerLocked(ino, serial));
    var s3 := s2.Goes(p, LowerSame(ino, serial));
    var s4 := s3.Goes(p, LowerRemoving(ino, serial));
    var s5 := s4.(link := None).Goes(p, Leaving(Some(ino)));
    StepsOn(s5, p, Leave, []);
    StepsOn(s4, p, Remove, [Leave] + []);
    StepsOn(s3, p, Check, [Remove] + ([Leave] + []));
    StepsOn(s2, p, Compare, [Check] + ([Remove] + ([Leave] + [])));
    StepsOn(s1, p, Lock, LOWER_REST);
    StepsOn(s, p, CallLower, [Lock] + LOWER_REST);
  }

  const LEAVE: seq<Step> := [Leave] + []

  /** Lower alone leaves the flag alone when it is not the one of its Raise, or there is none. */
  lemma LowerLeavesOthers(s: State, p: Proc)
    requires Inv(s) && s.lock == None && s.At(p).Raised? && s.link != Some(s.At(p).ino)
    ensures var acts := Steps(p, [CallLower] + ([Lock] + ([Compare] + LEAVE)));
            && Runs(s, acts) && After(s, acts).link == s.link && After(s, acts).files == s.files
            && After(s, acts).lock == None && After(s, acts).At(p).Idle?
  {
    var ino, serial := s.At(p).ino, s.At(p).serial;
    var s1 := s.Goes(p, LowerLocking(ino, serial));
    var s2 := s1.(lock := Some(p)).Goes(p, LowerLocked(ino, serial));
    var s3 := s2.Goes(p, Leaving(Some(ino)));
    StepsOn(s3, p, Leave, []);
    StepsOn(s2, p, Compare, LEAVE);
    StepsOn(s1, p, Lock, [Compare] + LEAVE);
    StepsOn(s, p, CallLower, [Lock] + ([Compare] + LEAVE));
  }

  const REMOVE_REST: seq<Step> := [Check] + ([Remove] + LEAVE)

  lemma UnsetEnds(s: State, p: Proc)
    requires s.lock == Some(p) && s.At(p).UnsetLocked? && s.link.Some?
    ensures var acts := Steps(p, REMOVE_REST);
            Runs(s, acts) && After(s, acts).link == None && After(s, acts).lock == None && After(s, acts).At(p).Idle?
  {
    var s1 := s.Goes(p, UnsetRemoving);
    var s2 := s1.(link := None).Goes(p, Leaving(None));
    StepsOn(s2, p, Leave, []);
    StepsOn(s1, p, Remove, LEAVE);
    StepsOn(s, p, Check, [Remove] + LEAVE);
  }

  /** Unset alone takes a flag away. */
  lemma UnsetLowers(s: State, p: Proc)
    requires Inv(s) && s.lock == None && s.At(p).Idle? && s.link.Some?
    ensures var acts := Steps(p, [CallUnset] + ([Lock] + REMOVE_REST));
            Runs(s, acts) && After(s, acts).link == None && After(s, acts).lock == None && After(s, acts).At(p).Idle?
  {
    var s1 := s.Goes(p, UnsetLocking);
    UnsetEnds(s1.(lock := Some(p)).Goes(p, UnsetLocked), p);
    StepsOn(s1, p, Lock, REMOVE_REST);
    StepsOn(s, p, CallUnset, [Lock] + REMOVE_REST);
  }

  /** Raise alone raises a flag, with no content, which it holds by its inode. */
  lemma RaiseRaises(s: State, p: Proc, ino: Inode)
    requires Inv(s) && s.lock == None && s.At(p).Idle? && s.link == None && s.Spare(ino)
    ensures var acts := Steps(p, [CallRaise] + ([Lock] + ([Create(ino)] + LEAVE)));
            && Runs(s, acts) && After(s, acts).lock == None && After(s, acts).At(p) == Raised(ino, s.next)
            && After(s, acts).link == Some(ino) && Is(After(s, acts), File("", s.next))
  {
    var s1 := s.Goes(p, RaiseLocking);
    var s2 := s1.(lock := Some(p)).Goes(p, RaiseLocked);
    var s3 := s2.Created(ino).Goes(p, RaiseLeaving(ino, s.next));
    StepsOn(s3, p, Leave, []);
    assert forall q :: s2.At(q) == if q == p then RaiseLocked else s.At(q);
    StepsOn(s2, p, Create(ino), LEAVE);
    StepsOn(s1, p, Lock, [Create(ino)] + LEAVE);
    StepsOn(s, p, CallRaise, [Lock] + ([Create(ino)] + LEAVE));
  }

  /** Raise alone leaves a flag raised already alone, and holds none. */
  lemma RaiseLeavesRaised(s: State, p: Proc, ino: Inode)
    requires Inv(s) && s.lock == None && s.At(p).Idle? && s.link.Some? && s.Spare(ino)
    ensures var acts := Steps(p, [CallRaise] + ([Lock] + ([Create(ino)] + LEAVE)));
            && Runs(s, acts) && After(s, acts).lock == None && After(s, acts).At(p).Idle?
            && After(s, acts).link == s.link && After(s, acts).files == s.files
  {
    var s1 := s.Goes(p, RaiseLocking);
    var s2 := s1.(lock := Some(p)).Goes(p, RaiseLocked);
    var s3 := s2.Goes(p, Leaving(None));
    StepsOn(s3, p, Leave, []);
    assert forall q :: s2.At(q) == if q == p then RaiseLocked else s.At(q);
    StepsOn(s2, p, Create(ino), LEAVE);
    StepsOn(s1, p, Lock, [Create(ino)] + LEAVE);
    StepsOn(s, p, CallRaise, [Lock] + ([Create(ino)] + LEAVE));
  }

  /** A SetWith that finds the flag raised once it has the lock leaves it alone; found before, it does nothing. */
  lemma SetLeavesRaised(s: State, p: Proc, b: string)
    requires Inv(s) && s.lock == None && s.link.Some?
    ensures s.At(p).Idle? ==> Do(s, Action(p, CallSet(b))) == s
    ensures var acts := Steps(p, [Lock] + ([Check] + LEAVE));
            s.At(p) == SetMissing(b) ==>
              && Runs(s, acts) && After(s, acts).lock == None && After(s, acts).At(p).Idle?
              && After(s, acts).link == s.link && After(s, acts).files == s.files
  {
    if s.At(p) == SetMissing(b) {
      var s1 := s.(lock := Some(p)).Goes(p, SetLocked(b));
      var s2 := s1.Goes(p, Leaving(None));
      StepsOn(s2, p, Leave, []);
      StepsOn(s1, p, Check, LEAVE);
      StepsOn(s, p, Lock, [Check] + LEAVE);
    }
  }

  /** Unset does nothing where there is no flag, and Keep leaves the flag raised. */
  lemma UnsetAndKeepLeave(s: State, p: Proc)
    requires Inv(s)
    ensures s.At(p).Idle? && s.link == None ==> Do(s, Action(p, CallUnset)) == s
    ensures s.At(p).Raised? ==>
              var t := Do(s, Action(p, CallKeep)); t.link == s.link && t.files == s.files && t.At(p).Idle?
  {
  }

  /** There is always a spare inode: all of them are but those at the path or held open. */
  lemma SomeSpare(s: State) returns (n: Inode)
    ensures forall ino :: n <= ino ==> s.Spare(ino)
  {
    n := SparePast(s, s.at.Keys);
    if s.link.Some? && n <= s.link.value { n := s.link.value + 1; }
  }

  lemma {:induction false} SparePast(s: State, among: set<Proc>) returns (n: Inode)
    requires among <= s.at.Keys
    ensures forall p, ino :: p in among && n <= ino ==> s.At(p).Open() != Some(ino)
    decreases among
  {
    if among == {} { return 0; }
    var p :| p in among;
    n := SparePast(s, among - {p});
    var open := s.At(p).Open();
    if open.Some? && n <= open.value { n := open.value + 1; }
  }

  /** Once the flag is removed its inode may be taken, unless a process holds it open. */
  lemma RemovedIsSpare(s: State, p: Proc)
    requires Inv(s) && s.At(p).UnsetRemoving?
    ensures s.link.Some?
    ensures Do(s, Action(p, Remove)).Spare(s.link.value) <==> forall q :: s.At(q).Open() != s.link
  {
    assert PointHolds(s, p);
    var t := Do(s, Action(p, Remove));
    assert forall q :: t.At(q).Open() == s.At(q).Open();
  }

  /** A process may stop anywhere, which gives its lock back, closes its files and changes nothing else. */
  lemma MayStop(s: State, p: Proc, q: Proc)
    ensures Enabled(s, Action(p, Stop))
    ensures var t := Do(s, Action(p, Stop));
            && t.link == s.link && t.files == s.files && t.At(p).Idle? && t.lock != Some(p)
            && (q != p ==> t.At(q) == s.At(q) && (s.lock == Some(q) ==> t.lock == Some(q)))
  {
  }
}
