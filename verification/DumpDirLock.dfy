/**
 The lock protocol of a dump directory (src/lib/dump_dir.c) as a transition
 system: any number of processes open, create, delete and close one directory,
 and every system call on the shared `.lock` link or on the files is one step.
 A process may crash between any two of them.
 */
module DumpDirLock {
  import opened Basics

  type Pid = nat

  const NO_TIME_FILE_COUNT: nat := 10
  const RMDIR_FAIL_COUNT: nat := 50

  /** The directory's elements: `time` and `type`, which dd_check asks for, and the rest. */
  datatype Name = Time | Type | Other(id: nat)

  /** What the symbolic link `.lock` points to. */
  datatype Link = NoLink | ByPid(pid: Pid) | NotANumber

  /** All the code ever asks of errno here is whether it is EALREADY. */
  datatype Errno = EAlready | OtherErrno

  /** The arguments and the retry counter of a dd_lock in progress. */
  datatype Op = Op(opener: bool, dontWait: bool, count: nat)

  /** The next system call of the operation a process is in, with the locals it still needs. */
  datatype Pc =
    | Idle
    | TrySymlink(op: Op)
    | ReadLink(op: Op)
    | CheckAlive(op: Op, seen: Link)
    | BreakStale(op: Op, seen: Link)
    | CheckTime(op: Op, owns: bool)
    | CheckType(op: Op, owns: bool)
    | BackOff(op: Op, owns: bool)
    | RemoveFiles(todo: set<Name>, sawLock: bool)
    | RemoveLock
    | RemoveDir(cnt: nat)

  /** A locked struct dump_dir. */
  datatype Handle = Handle(owns: bool)

  /** One process. Handles are listed oldest first. `gone` is not program state: it
      counts the handles whose lock this process has itself removed in dd_delete. */
  datatype Proc = Proc(alive: bool, errno: Errno, pc: Pc, handles: seq<Handle>, gone: nat)

  /** files maps each element present to whether its content is acceptable to dd_check. */
  datatype State = State(present: bool, link: Link, files: map<Name, bool>, procs: map<Pid, Proc>)

  datatype Step =
    | Spawn(p: Pid)
    | Crash(p: Pid)
    | SetErrno(p: Pid, e: Errno)
    | StartOpen(p: Pid, dontWait: bool)
    | StartCreate(p: Pid, parents: bool)
    | Call(p: Pid)
    | CallFails(p: Pid)
    | Remove(p: Pid, name: Name)
    | Save(p: Pid, name: Name, valid: bool)
    | DeleteItem(p: Pid, name: Name)
    | StartDelete(p: Pid)
    | Close(p: Pid, i: nat)

  // ----- the transitions -----

  predicate Alive(s: State, p: Pid) {
    p in s.procs && s.procs[p].alive
  }

  predicate Valid(files: map<Name, bool>, n: Name) {
    n in files && files[n]
  }

  function Set(s: State, p: Pid, q: Proc): State {
    s.(procs := s.procs[p := q])
  }

  function Goto(s: State, p: Pid, pc: Pc): State
    requires p in s.procs
  {
    Set(s, p, s.procs[p].(pc := pc))
  }

  /** dd->locked = true: the process gets a handle and is back in its own code. */
  function Grant(s: State, p: Pid, owns: bool): State
    requires p in s.procs
  {
    var q := s.procs[p];
    Set(s, p, q.(pc := Idle, handles := q.handles + [Handle(owns)]))
  }

  function Die(s: State, p: Pid): State
    requires p in s.procs
  {
    Set(s, p, s.procs[p].(alive := false))
  }

  /** The lines after the `retry` loop of dd_lock: owns_lock is read off errno. */
  function Acquired(s: State, p: Pid, op: Op): State
    requires p in s.procs
  {
    var owns := s.procs[p].errno != EAlready;
    var s1 := Set(s, p, s.procs[p].(errno := OtherErrno));
    if op.opener then Goto(s1, p, CheckTime(op, owns)) else Grant(s1, p, owns)
  }

  /** xunlinkat(".lock"): a missing link is fatal to the process. */
  function Unlink(s: State, p: Pid): State
    requires p in s.procs
  {
    if s.link == NoLink then Die(s, p) else s.(link := NoLink)
  }

  /** dd_unlock followed by freeing the handle. */
  function Drop(q: Proc, i: nat): Proc
    requires i < |q.handles|
  {
    q.(handles := RemoveAt(q.handles, i), gone := if i < q.gone then q.gone - 1 else q.gone)
  }

  /** One successful system call (or one whose failure the state determines). */
  function DoCall(s: State, p: Pid): State
    requires p in s.procs
  {
    var q := s.procs[p];
    match q.pc
    case Idle => s
    case TrySymlink(op) =>
      if !s.present then Goto(s, p, Idle)
      else if s.link == NoLink then Acquired(s.(link := ByPid(p)), p, op)
      else Set(s, p, q.(errno := OtherErrno, pc := ReadLink(op)))
    case ReadLink(op) =>
      if s.link == NoLink then Goto(s, p, TrySymlink(op))
      else if s.link == ByPid(p) then Acquired(Set(s, p, q.(errno := EAlready)), p, op)
      else Goto(s, p, CheckAlive(op, s.link))
    case CheckAlive(op, seen) =>
      if seen.ByPid? && Alive(s, seen.pid) then Goto(s, p, if op.dontWait then Idle else TrySymlink(op))
      else Goto(s, p, BreakStale(op, seen))
    case BreakStale(op, seen) =>
      Goto(s.(link := NoLink), p, TrySymlink(op))
    case CheckTime(op, owns) =>
      Goto(s, p, if Valid(s.files, Time) then CheckType(op, owns) else BackOff(op, owns))
    case CheckType(op, owns) =>
      if Valid(s.files, Type) then Grant(s, p, owns) else Goto(s, p, BackOff(op, owns))
    case BackOff(op, owns) =>
      var s1 := if owns then Unlink(s, p) else s;
      Goto(s1, p, if op.count <= 1 || op.dontWait then Idle else TrySymlink(op.(count := op.count - 1)))
    case RemoveFiles(todo, sawLock) =>
      if todo != {} then s
      else Goto(s, p, if sawLock then RemoveLock else RemoveDir(RMDIR_FAIL_COUNT))
    case RemoveLock =>
      var s1 := Unlink(s, p);
      Set(s1, p, s1.procs[p].(pc := RemoveDir(RMDIR_FAIL_COUNT), gone := |q.handles|))
    case RemoveDir(cnt) =>
      if s.present && s.link == NoLink && s.files == map[] && q.handles != [] then
        Set(s.(present := false), p, Drop(q, |q.handles| - 1).(pc := Idle))
      else
        Goto(s, p, if cnt <= 1 then Idle else RemoveDir(cnt - 1))
  }

  /** A system call that fails for a reason of its own (permissions, I/O): an unreadable
      element counts as missing, rmdir is tried again, anything else ends the operation. */
  function AfterFailure(pc: Pc): Pc {
    match pc
    case CheckTime(op, owns) => BackOff(op, owns)
    case CheckType(op, owns) => BackOff(op, owns)
    case RemoveDir(cnt) => if cnt <= 1 then Idle else RemoveDir(cnt - 1)
    case _ => Idle
  }

  predicate Enabled(s: State, l: Step) {
    if l.Spawn? then l.p !in s.procs
    else
      && Alive(s, l.p)
      && var q := s.procs[l.p];
         match l
         case Spawn(_) => false
         case Crash(_) => true
         case SetErrno(_, _) => q.pc.Idle?
         case StartOpen(_, _) => q.pc.Idle?
         case StartCreate(_, parents) => q.pc.Idle? && (parents || !s.present)
         case Call(_) => !q.pc.Idle? && !(q.pc.RemoveFiles? && q.pc.todo != {})
         case CallFails(_) => !q.pc.Idle? && !q.pc.CheckAlive? && !q.pc.BackOff? && !q.pc.RemoveLock?
         case Remove(_, name) => q.pc.RemoveFiles? && name in q.pc.todo
         case Save(_, _, _) => q.pc.Idle? && q.handles != [] && s.present
         case DeleteItem(_, _) => q.pc.Idle? && q.handles != []
         case StartDelete(_) => q.pc.Idle? && q.handles != []
         case Close(_, i) => q.pc.Idle? && i < |q.handles|
  }

  function Apply(s: State, l: Step): State
    requires Enabled(s, l)
  {
    match l
    case Spawn(p) => Set(s, p, Proc(true, OtherErrno, Idle, [], 0))
    case Crash(p) => Die(s, p)
    case SetErrno(p, e) => Set(s, p, s.procs[p].(errno := e))
    case StartOpen(p, dontWait) =>
      Set(s, p, s.procs[p].(errno := OtherErrno, pc := TrySymlink(Op(true, dontWait, NO_TIME_FILE_COUNT))))
    case StartCreate(p, _) => Goto(s.(present := true), p, TrySymlink(Op(false, false, NO_TIME_FILE_COUNT)))
    case Call(p) => DoCall(s, p)
    case CallFails(p) => Set(s, p, s.procs[p].(errno := OtherErrno, pc := AfterFailure(s.procs[p].pc)))
    case Remove(p, name) =>
      var q := s.procs[p];
      Set(s.(files := s.files - {name}), p, q.(pc := q.pc.(todo := q.pc.todo - {name})))
    case Save(p, name, valid) => s.(files := s.files[name := valid])
    case DeleteItem(p, name) => s.(files := s.files - {name})
    case StartDelete(p) => Goto(s, p, RemoveFiles(s.files.Keys, s.link != NoLink))
    case Close(p, i) =>
      var q := s.procs[p];
      var s1 := if q.handles[i].owns then Unlink(s, p) else s;
      Set(s1, p, Drop(s1.procs[p], i))
  }

  // ----- what the callers have to observe -----

  /** The handle on top of p's stack is locked and its lock has not been deleted. */
  predicate HasLive(q: Proc) {
    |q.handles| > q.gone
  }

  /** Handles are closed in LIFO order, and dd_delete is not called again on a handle
      whose lock it has already removed. */
  predicate Disciplined(s: State, l: Step) {
    && Enabled(s, l)
    && (l.Close? ==> l.i == |s.procs[l.p].handles| - 1)
    && (l.StartDelete? ==> HasLive(s.procs[l.p]))
  }

  /** Elements are written and deleted under a lock that has not been removed. */
  predicate FileDisciplined(s: State, l: Step) {
    Enabled(s, l) && (l.Save? || l.DeleteItem? ==> HasLive(s.procs[l.p]))
  }

  /** The link a stale-lock unlink removes is the one that was read. */
  predicate Faithful(s: State, l: Step) {
    Enabled(s, l) && (l.Call? && s.procs[l.p].pc.BreakStale? ==> s.link == NoLink || s.link == s.procs[l.p].pc.seen)
  }

  /** If p enters dd_create here, it is not with a stale EALREADY in errno. */
  predicate Clean(s: State, l: Step, p: Pid) {
    Enabled(s, l) && (l.StartCreate? && l.p == p ==> s.procs[p].errno != EAlready)
  }

  // ----- the invariant -----

  /** The process has taken the lock and not given it back. */
  predicate Holding(q: Proc) {
    HasLive(q) || q.pc.CheckTime? || q.pc.CheckType? || q.pc.BackOff?
  }

  /** The step deletes the link of another live process that holds the lock. */
  predicate Theft(s: State, l: Step)
    requires Enabled(s, l)
  {
    s.link.ByPid? && s.link.pid != l.p && Alive(s, s.link.pid) && Holding(s.procs[s.link.pid]) && Apply(s, l).link == NoLink
  }

  predicate ProcOk(s: State, p: Pid, q: Proc) {
    && q.gone <= |q.handles|
    && (forall i | q.gone < i < |q.handles| :: !q.handles[i].owns)
    && (Holding(q) ==> s.link == ByPid(p))
    && match q.pc
       case CheckAlive(_, seen) => !HasLive(q) && SeenOk(s, p, seen)
       case BreakStale(_, seen) => !HasLive(q) && SeenOk(s, p, seen) && (seen.ByPid? ==> !Alive(s, seen.pid))
       case CheckTime(_, owns) => owns ==> !HasLive(q)
       case CheckType(_, owns) => owns ==> !HasLive(q)
       case BackOff(_, owns) => owns ==> !HasLive(q)
       case RemoveFiles(_, sawLock) => sawLock && HasLive(q)
       case RemoveLock => HasLive(q)
       case RemoveDir(_) => q.handles != [] && q.gone == |q.handles|
       case _ => true
  }

  /** A link content read by p was not p's own, and names no process still to come. */
  predicate SeenOk(s: State, p: Pid, seen: Link) {
    seen != NoLink && seen != ByPid(p) && (seen.ByPid? ==> seen.pid in s.procs)
  }

  predicate SharedOk(s: State) {
    && (s.link.ByPid? ==> s.link.pid in s.procs)
    && (!s.present ==> s.link == NoLink && s.files == map[])
  }

  ghost predicate Inv(s: State) {
    SharedOk(s) && forall p | Alive(s, p) :: ProcOk(s, p, s.procs[p])
  }

  ghost predicate Init(s: State) {
    && SharedOk(s) && (s.link.ByPid? ==> !Alive(s, s.link.pid))
    && forall p | Alive(s, p) :: s.procs[p].pc.Idle? && s.procs[p].handles == [] && s.procs[p].gone == 0
  }

  lemma InitInv(s: State)
    requires Init(s)
    ensures Inv(s) && FileInv(s) && forall p :: NoLeak(s, p)
  {
  }

  /** At most one live process holds the lock, and `.lock` names it. */
  lemma MutualExclusion(s: State, p: Pid, q: Pid)
    requires Inv(s) && Alive(s, p) && Holding(s.procs[p])
    requires Alive(s, q) && Holding(s.procs[q])
    ensures p == q && s.link == ByPid(p)
  {
    assert ProcOk(s, p, s.procs[p]) && ProcOk(s, q, s.procs[q]);
  }

  // ----- every step keeps the invariant, unless it steals a link -----

  /** A step touches its own process only, and a link only by making or removing it. */
  ghost predicate Local(s: State, p: Pid, s': State) {
    && p in s'.procs
    && (forall q | q != p :: q in s'.procs <==> q in s.procs)
    && (forall q | q != p && q in s.procs :: s'.procs[q] == s.procs[q])
    && (s'.link == s.link || s'.link == NoLink || (s.link == NoLink && s'.link == ByPid(p)))
  }

  lemma CallFrame(s: State, p: Pid)
    requires p in s.procs
    ensures Local(s, p, DoCall(s, p)) && (SharedOk(s) ==> SharedOk(DoCall(s, p)))
  {
    match s.procs[p].pc
    case Idle =>
    case TrySymlink(op) =>
    case ReadLink(op) =>
    case CheckAlive(op, seen) =>
    case BreakStale(op, seen) =>
    case CheckTime(op, owns) =>
    case CheckType(op, owns) =>
    case BackOff(op, owns) =>
    case RemoveFiles(todo, sawLock) =>
    case RemoveLock =>
    case RemoveDir(cnt) =>
  }

  lemma Frame(s: State, l: Step)
    requires Enabled(s, l)
    ensures Local(s, l.p, Apply(s, l)) && (SharedOk(s) ==> SharedOk(Apply(s, l)))
  {
    if l.Call? {
      CallFrame(s, l.p);
    }
  }

  lemma OthersKept(s: State, l: Step, q: Pid)
    requires Inv(s) && Enabled(s, l) && !Theft(s, l) && q != l.p && Alive(s, q)
    ensures var s' := Apply(s, l); Alive(s', q) && s'.procs[q] == s.procs[q] && ProcOk(s', q, s'.procs[q])
  {
    Frame(s, l);
    assert ProcOk(s, q, s.procs[q]);
  }

  lemma LockCallKept(s: State, p: Pid)
    requires Inv(s) && Enabled(s, Call(p))
    requires var pc := s.procs[p].pc; pc.TrySymlink? || pc.ReadLink?
    ensures Alive(DoCall(s, p), p) ==> ProcOk(DoCall(s, p), p, DoCall(s, p).procs[p])
  {
    assert ProcOk(s, p, s.procs[p]);
  }

  lemma StaleKept(s: State, p: Pid)
    requires Inv(s) && Enabled(s, Call(p))
    requires var pc := s.procs[p].pc; pc.CheckAlive? || pc.BreakStale?
    ensures Alive(DoCall(s, p), p) ==> ProcOk(DoCall(s, p), p, DoCall(s, p).procs[p])
  {
    assert ProcOk(s, p, s.procs[p]);
  }

  lemma CheckKept(s: State, p: Pid)
    requires Inv(s) && Enabled(s, Call(p))
    requires var pc := s.procs[p].pc; pc.CheckTime? || pc.CheckType? || pc.BackOff?
    ensures Alive(DoCall(s, p), p) ==> ProcOk(DoCall(s, p), p, DoCall(s, p).procs[p])
  {
    assert ProcOk(s, p, s.procs[p]);
  }

  lemma RemoveKept(s: State, p: Pid)
    requires Inv(s) && Enabled(s, Call(p))
    requires var pc := s.procs[p].pc; pc.RemoveFiles? || pc.RemoveLock? || pc.RemoveDir?
    ensures Alive(DoCall(s, p), p) ==> ProcOk(DoCall(s, p), p, DoCall(s, p).procs[p])
  {
    assert ProcOk(s, p, s.procs[p]);
  }

  lemma CallKept(s: State, p: Pid)
    requires Inv(s) && Enabled(s, Call(p))
    ensures Alive(DoCall(s, p), p) ==> ProcOk(DoCall(s, p), p, DoCall(s, p).procs[p])
  {
    var pc := s.procs[p].pc;
    if pc.TrySymlink? || pc.ReadLink? {
      LockCallKept(s, p);
    } else if pc.CheckAlive? || pc.BreakStale? {
      StaleKept(s, p);
    } else if pc.CheckTime? || pc.CheckType? || pc.BackOff? {
      CheckKept(s, p);
    } else {
      RemoveKept(s, p);
    }
  }

  lemma StartKept(s: State, l: Step)
    requires Inv(s) && Disciplined(s, l) && !l.Call? && !l.Close?
    ensures Alive(Apply(s, l), l.p) ==> ProcOk(Apply(s, l), l.p, Apply(s, l).procs[l.p])
  {
    if !l.Spawn? {
      assert ProcOk(s, l.p, s.procs[l.p]);
    }
  }

  lemma CloseKept(s: State, p: Pid, i: nat)
    requires Inv(s) && Disciplined(s, Close(p, i))
    ensures Alive(Apply(s, Close(p, i)), p) ==> ProcOk(Apply(s, Close(p, i)), p, Apply(s, Close(p, i)).procs[p])
  {
    assert ProcOk(s, p, s.procs[p]);
  }

  lemma StepKeepsInv(s: State, l: Step)
    requires Inv(s) && Disciplined(s, l) && !Theft(s, l)
    ensures Inv(Apply(s, l))
  {
    var s' := Apply(s, l);
    Frame(s, l);
    forall q | Alive(s', q) ensures ProcOk(s', q, s'.procs[q]) {
      if q != l.p {
        OthersKept(s, l, q);
      } else if l.Call? {
        CallKept(s, q);
      } else if l.Close? {
        CloseKept(s, q, l.i);
      } else {
        StartKept(s, l);
      }
    }
  }

  /** The exact condition: a disciplined step leaves the protocol sound if and only if
      it does not remove the link of another live process that holds the lock. */
  lemma SafeIffNoTheft(s: State, l: Step)
    requires Inv(s) && Disciplined(s, l)
    ensures Inv(Apply(s, l)) <==> !Theft(s, l)
  {
    if Theft(s, l) {
      var q := s.link.pid;
      Frame(s, l);
      assert !ProcOk(Apply(s, l), q, s.procs[q]);
    } else {
      StepKeepsInv(s, l);
    }
  }

  /** The only two places a live process can lose the lock it holds to another one: the
      unlink of a stale lock, and closing a handle after its own dd_delete removed the lock. */
  lemma WhereTheftsHappen(s: State, l: Step)
    requires Inv(s) && Disciplined(s, l)
    ensures Theft(s, l) <==>
      && s.link.ByPid? && s.link.pid != l.p && Alive(s, s.link.pid) && Holding(s.procs[s.link.pid])
      && (|| (l.Call? && s.procs[l.p].pc.BreakStale?)
          || (l.Close? && l.i < s.procs[l.p].gone && s.procs[l.p].handles[l.i].owns))
  {
    if !l.Spawn? {
      assert ProcOk(s, l.p, s.procs[l.p]);
    }
  }

  /** Hence removing the very link that was read is enough for a stale unlink. */
  lemma FaithfulBreakIsSafe(s: State, p: Pid)
    requires Inv(s) && Faithful(s, Call(p))
    ensures !Theft(s, Call(p))
  {
    WhereTheftsHappen(s, Call(p));
    assert ProcOk(s, p, s.procs[p]);
  }

  // ----- runs -----

  /** t is reached from s by the steps ls, each of them possible where it is made and
      such as ok asks for. `Run(s, ls, t, Enabled)` is any run at all. */
  ghost predicate Run(s: State, ls: seq<Step>, t: State, ok: (State, Step) -> bool)
    decreases |ls|
  {
    if ls == [] then s == t
    else Enabled(s, ls[0]) && ok(s, ls[0]) && Run(Apply(s, ls[0]), ls[1..], t, ok)
  }

  /** What every step keeps holds at the end of a run. */
  lemma {:induction false} RunKeeps(s: State, ls: seq<Step>, t: State, ok: (State, Step) -> bool, inv: State -> bool)
    requires inv(s) && Run(s, ls, t, ok)
    requires forall u, l | inv(u) && Enabled(u, l) && ok(u, l) :: inv(Apply(u, l))
    ensures inv(t)
    decreases |ls|
  {
    if ls != [] {
      RunKeeps(Apply(s, ls[0]), ls[1..], t, ok, inv);
    }
  }

  lemma {:induction false} RunsJoin(s: State, ls: seq<Step>, t: State, ls': seq<Step>, t': State, ok: (State, Step) -> bool)
    requires Run(s, ls, t, ok) && Run(t, ls', t', ok)
    ensures Run(s, ls + ls', t', ok)
    decreases |ls|
  {
    if ls == [] {
      assert ls + ls' == ls';
    } else {
      assert (ls + ls')[1..] == ls[1..] + ls';
      RunsJoin(Apply(s, ls[0]), ls[1..], t, ls', t', ok);
    }
  }

  lemma OneStep(s: State, l: Step, ok: (State, Step) -> bool)
    requires Enabled(s, l) && ok(s, l)
    ensures Run(s, [l], Apply(s, l), ok)
  {
    assert Run(Apply(s, l), [l][1..], Apply(s, l), ok);
  }

  /** A disciplined step that is no theft. */
  predicate GoodStep(s: State, l: Step) {
    Disciplined(s, l) && !Theft(s, l)
  }

  lemma RunKeepsInv(s: State, ls: seq<Step>, t: State)
    requires Inv(s) && Run(s, ls, t, GoodStep)
    ensures Inv(t)
  {
    forall u, l | Inv(u) && Enabled(u, l) && GoodStep(u, l) ensures Inv(Apply(u, l)) {
      StepKeepsInv(u, l);
    }
    RunKeeps(s, ls, t, GoodStep, Inv);
  }

  /** What the source would have to guarantee for itself: a stale unlink hits the link
      that was read, handles are closed in LIFO order, and none is closed or deleted
      once dd_delete has removed its lock. */
  predicate FaithfulStep(s: State, l: Step) {
    Disciplined(s, l) && Faithful(s, l) && (l.Close? ==> HasLive(s.procs[l.p]))
  }

  lemma FaithfulStepIsSafe(s: State, l: Step)
    requires Inv(s) && FaithfulStep(s, l)
    ensures GoodStep(s, l)
  {
    WhereTheftsHappen(s, l);
    if l.Call? {
      FaithfulBreakIsSafe(s, l.p);
    }
  }

  /** These conditions on single steps make every run a good one. */
  lemma {:induction false} FaithfulRunIsGood(s: State, ls: seq<Step>, t: State)
    requires Inv(s) && Run(s, ls, t, FaithfulStep)
    ensures Run(s, ls, t, GoodStep)
    decreases |ls|
  {
    if ls != [] {
      FaithfulStepIsSafe(s, ls[0]);
      StepKeepsInv(s, ls[0]);
      FaithfulRunIsGood(Apply(s, ls[0]), ls[1..], t);
    }
  }

  /** Hence mutual exclusion: in every interleaving with crashes, of processes whose stale
      unlinks remove what they read, live handles of two live processes never coexist. */
  lemma FaithfulMutualExclusion(s: State, ls: seq<Step>, t: State, p: Pid, q: Pid)
    requires Init(s) && Run(s, ls, t, FaithfulStep)
    requires Alive(t, p) && Holding(t.procs[p]) && Alive(t, q) && Holding(t.procs[q])
    ensures p == q && t.link == ByPid(p)
  {
    InitInv(s);
    FaithfulRunIsGood(s, ls, t);
    RunMutualExclusion(s, ls, t, p, q);
  }

  /** In every good run at most one live process holds the lock, and `.lock` names it. */
  lemma RunMutualExclusion(s: State, ls: seq<Step>, t: State, p: Pid, q: Pid)
    requires Init(s) && Run(s, ls, t, GoodStep)
    requires Alive(t, p) && Holding(t.procs[p]) && Alive(t, q) && Holding(t.procs[q])
    ensures p == q && t.link == ByPid(p)
  {
    InitInv(s);
    RunKeepsInv(s, ls, t);
    MutualExclusion(t, p, q);
  }

  // ----- no lock is leaked -----

  /** One of the handles whose lock q has not deleted will remove the link. */
  ghost predicate WillUnlink(q: Proc) {
    exists i :: q.gone <= i < |q.handles| && q.handles[i].owns
  }

  predicate PendingOwner(q: Proc) {
    (q.pc.CheckTime? || q.pc.CheckType? || q.pc.BackOff?) && q.pc.owns
  }

  /** In dd_delete. */
  predicate Removing(pc: Pc) { pc.RemoveFiles? || pc.RemoveLock? || pc.RemoveDir? }

  /** In dd_lock. */
  predicate Locking(pc: Pc) { !pc.Idle? && !Removing(pc) }

  /** If the link names p while it lives, p is going to remove it. This is about p alone:
      it does not matter what the others have done to the link. */
  ghost predicate NoLeak(s: State, p: Pid) {
    && (s.link == ByPid(p) ==> p in s.procs)
    && (Alive(s, p) ==>
          && var q := s.procs[p];
          && q.gone <= |q.handles|
          && (Locking(q.pc) ==> q.errno == OtherErrno)
          && (s.link == ByPid(p) ==> WillUnlink(q) || PendingOwner(q)))
  }

  lemma GrantWillUnlink(q: Proc, owns: bool)
    requires q.gone <= |q.handles|
    ensures owns || WillUnlink(q) ==> WillUnlink(q.(pc := Idle, handles := q.handles + [Handle(owns)]))
  {
    var q' := q.(pc := Idle, handles := q.handles + [Handle(owns)]);
    if owns {
      assert q'.handles[|q.handles|].owns;
    } else if WillUnlink(q) {
      var i :| q.gone <= i < |q.handles| && q.handles[i].owns;
      assert q'.handles[i].owns;
    }
  }

  lemma DropWillUnlink(q: Proc, i: nat)
    requires q.gone <= |q.handles| && i < |q.handles| && !q.handles[i].owns && WillUnlink(q)
    ensures WillUnlink(Drop(q, i))
  {
    var j :| q.gone <= j < |q.handles| && q.handles[j].owns;
    assert Drop(q, i).handles[if j < i then j else j - 1].owns;
  }

  lemma LockCallLeaksNothing(s: State, p: Pid)
    requires NoLeak(s, p) && Enabled(s, Call(p))
    requires var pc := s.procs[p].pc; pc.TrySymlink? || pc.ReadLink? || pc.CheckAlive? || pc.BreakStale?
    ensures NoLeak(DoCall(s, p), p)
  {
    var q := s.procs[p].(errno := OtherErrno);
    GrantWillUnlink(q, s.procs[p].pc.TrySymlink?);
  }

  lemma CheckLeaksNothing(s: State, p: Pid)
    requires NoLeak(s, p) && Enabled(s, Call(p))
    requires var pc := s.procs[p].pc; pc.CheckTime? || pc.CheckType? || pc.BackOff?
    ensures NoLeak(DoCall(s, p), p)
  {
    GrantWillUnlink(s.procs[p], s.procs[p].pc.owns);
  }

  lemma DeleteLeaksNothing(s: State, p: Pid)
    requires NoLeak(s, p) && Enabled(s, Call(p)) && Removing(s.procs[p].pc)
    ensures NoLeak(DoCall(s, p), p)
  {
  }

  lemma StepLeaksNothing(s: State, l: Step, p: Pid)
    requires NoLeak(s, p) && Clean(s, l, p)
    ensures NoLeak(Apply(s, l), p)
  {
    if l.p != p {
      Frame(s, l);
    } else if l.Call? && Removing(s.procs[p].pc) {
      DeleteLeaksNothing(s, p);
    } else if l.Call? && (s.procs[p].pc.CheckTime? || s.procs[p].pc.CheckType? || s.procs[p].pc.BackOff?) {
      CheckLeaksNothing(s, p);
    } else if l.Call? {
      LockCallLeaksNothing(s, p);
    } else if l.Close? && !s.procs[p].handles[l.i].owns && WillUnlink(s.procs[p]) {
      DropWillUnlink(s.procs[p], l.i);
    }
  }

  /** The steps allowed to a run in which p's own dd_create calls are clean. */
  function CleanFor(p: Pid): (State, Step) -> bool {
    (s, l) => Clean(s, l, p)
  }

  lemma RunKeepsNoLeak(s: State, ls: seq<Step>, t: State, p: Pid)
    requires NoLeak(s, p) && Run(s, ls, t, CleanFor(p))
    ensures NoLeak(t, p)
  {
    var inv := (u: State) => NoLeak(u, p);
    forall u, l | inv(u) && Enabled(u, l) && CleanFor(p)(u, l) ensures inv(Apply(u, l)) {
      StepLeaksNothing(u, l, p);
    }
    RunKeeps(s, ls, t, CleanFor(p), inv);
  }

  /** dd_lock does not leak. Whatever the other processes do, thefts of p's own link
      included, and in whatever order handles are closed: when p is back in its own code and
      the link names it, one of its handles will still remove it. In particular a dd_lock
      that failed, on any exit and after any number of retries, leaves no link behind. */
  lemma RunLeavesNoLeak(s: State, ls: seq<Step>, t: State, p: Pid)
    requires Init(s) && Run(s, ls, t, CleanFor(p))
    requires Alive(t, p) && t.procs[p].pc.Idle? && t.link == ByPid(p)
    ensures exists i :: t.procs[p].gone <= i < |t.procs[p].handles| && t.procs[p].handles[i].owns
  {
    InitInv(s);
    RunKeepsNoLeak(s, ls, t, p);
  }

  /** Of the live handles of such a process exactly the oldest one owns the link. */
  lemma OldestOwns(s: State, p: Pid)
    requires Inv(s) && NoLeak(s, p) && Alive(s, p)
    ensures forall i | s.procs[p].gone <= i < |s.procs[p].handles| :: s.procs[p].handles[i].owns <==> i == s.procs[p].gone
  {
    assert ProcOk(s, p, s.procs[p]);
  }

  /** In good runs the link names such a process, back in its own code, exactly when it has
      a live handle, and the oldest one is the one that will remove it. */
  lemma RunOldestOwns(s: State, ls: seq<Step>, t: State, p: Pid)
    requires Init(s) && Run(s, ls, t, GoodStep) && Run(s, ls, t, CleanFor(p))
    requires Alive(t, p) && t.procs[p].pc.Idle?
    ensures t.link == ByPid(p) <==> HasLive(t.procs[p])
    ensures forall i | t.procs[p].gone <= i < |t.procs[p].handles| :: t.procs[p].handles[i].owns <==> i == t.procs[p].gone
  {
    InitInv(s);
    RunKeepsInv(s, ls, t);
    RunKeepsNoLeak(s, ls, t, p);
    OldestOwns(t, p);
    assert ProcOk(t, p, t.procs[p]);
  }

  /** Closing a live handle removes the link exactly when it is the last live one. */
  lemma CloseUnlinksLast(s: State, p: Pid)
    requires Inv(s) && NoLeak(s, p) && Alive(s, p) && s.procs[p].pc.Idle? && HasLive(s.procs[p])
    ensures var q := s.procs[p]; var l := Close(p, |q.handles| - 1);
      && Disciplined(s, l) && Alive(Apply(s, l), p)
      && Apply(s, l).link == if |q.handles| == q.gone + 1 then NoLink else ByPid(p)
  {
    OldestOwns(s, p);
    assert ProcOk(s, p, s.procs[p]);
  }

  /** LIFO order is needed: closing a live handle keeps the invariant if and only if
      it is not the owner, or is on top of the stack. */
  lemma CloseOrder(s: State, p: Pid, i: nat)
    requires Inv(s) && Enabled(s, Close(p, i)) && s.procs[p].gone <= i
    ensures Inv(Apply(s, Close(p, i))) <==> !s.procs[p].handles[i].owns || i == |s.procs[p].handles| - 1
  {
    var q := s.procs[p];
    var s' := Apply(s, Close(p, i));
    assert ProcOk(s, p, q);
    Frame(s, Close(p, i));
    if i == |q.handles| - 1 {
      StepKeepsInv(s, Close(p, i));
    } else if q.handles[i].owns {
      assert s'.link == NoLink && HasLive(s'.procs[p]);
      assert !ProcOk(s', p, s'.procs[p]);
    } else {
      forall r | Alive(s', r) ensures ProcOk(s', r, s'.procs[r]) {
        assert ProcOk(s, r, s.procs[r]);
      }
    }
  }

  // ----- the time file handshake -----

  /** What the operation a process is in knows about the files. */
  predicate FilesOk(s: State, pc: Pc) {
    match pc
    case CheckType(_, _) => Valid(s.files, Time)
    case RemoveFiles(todo, _) => s.files.Keys <= todo
    case RemoveLock => s.files == map[]
    case _ => true
  }

  ghost predicate FileInv(s: State) {
    forall p | Alive(s, p) :: FilesOk(s, s.procs[p].pc)
  }

  /** A good step that writes or deletes an element only under a live lock. */
  predicate TidyStep(s: State, l: Step) {
    GoodStep(s, l) && FileDisciplined(s, l)
  }

  lemma FilesKeptByCall(s: State, p: Pid)
    requires p in s.procs
    ensures DoCall(s, p).files == s.files
  {
  }

  /** Only a process that holds the lock changes files. */
  lemma FilesFrame(s: State, l: Step)
    requires Inv(s) && FileDisciplined(s, l)
    ensures Apply(s, l).files != s.files ==> Alive(s, l.p) && HasLive(s.procs[l.p])
  {
    if l.Call? {
      FilesKeptByCall(s, l.p);
    } else if l.Remove? {
      assert ProcOk(s, l.p, s.procs[l.p]);
    }
  }

  lemma CallFilesOk(s: State, p: Pid)
    requires Inv(s) && FileInv(s) && Enabled(s, Call(p))
    ensures FilesOk(DoCall(s, p), DoCall(s, p).procs[p].pc)
  {
    assert FilesOk(s, s.procs[p].pc) && ProcOk(s, p, s.procs[p]);
  }

  lemma ActorFilesOk(s: State, l: Step)
    requires Inv(s) && FileInv(s) && Enabled(s, l)
    ensures FilesOk(Apply(s, l), Apply(s, l).procs[l.p].pc)
  {
    if l.Call? {
      CallFilesOk(s, l.p);
    } else if !l.Spawn? {
      assert FilesOk(s, s.procs[l.p].pc);
    }
  }

  lemma StepKeepsFileInv(s: State, l: Step)
    requires Inv(s) && FileInv(s) && FileDisciplined(s, l)
    ensures FileInv(Apply(s, l))
  {
    var s' := Apply(s, l);
    Frame(s, l);
    FilesFrame(s, l);
    forall q | Alive(s', q) ensures FilesOk(s', s'.procs[q].pc) {
      if q == l.p {
        ActorFilesOk(s, l);
      } else {
        assert FilesOk(s, s.procs[q].pc) && ProcOk(s, q, s.procs[q]);
        if s'.files != s.files && Holding(s.procs[q]) {
          MutualExclusion(s, q, l.p);
        }
      }
    }
  }

  lemma RunKeepsFileInv(s: State, ls: seq<Step>, t: State)
    requires Init(s) && Run(s, ls, t, TidyStep)
    ensures Inv(t) && FileInv(t)
  {
    InitInv(s);
    var inv := (u: State) => Inv(u) && FileInv(u);
    forall u, l | inv(u) && Enabled(u, l) && TidyStep(u, l) ensures inv(Apply(u, l)) {
      StepKeepsInv(u, l);
      StepKeepsFileInv(u, l);
    }
    RunKeeps(s, ls, t, TidyStep, inv);
  }

  /** As long as p holds the lock no other process changes the directory. */
  lemma HolderUndisturbed(s: State, l: Step, p: Pid)
    requires Inv(s) && TidyStep(s, l) && Alive(s, p) && Holding(s.procs[p]) && l.p != p
    ensures var s' := Apply(s, l); s'.files == s.files && s'.procs[p] == s.procs[p] && s'.link == s.link
  {
    Frame(s, l);
    FilesFrame(s, l);
    OthersKept(s, l, p);
    assert ProcOk(s, p, s.procs[p]);
    if Alive(s, l.p) && HasLive(s.procs[l.p]) {
      MutualExclusion(s, p, l.p);
    }
  }

  /** p does not itself write, delete an element or start dd_delete. */
  predicate Quiet(p: Pid, l: Step) {
    l.p == p ==> !l.Save? && !l.DeleteItem? && !l.StartDelete?
  }

  /** A tidy step while p has a live handle and does not itself change the directory. */
  function HeldBy(p: Pid): (State, Step) -> bool {
    (s, l) => TidyStep(s, l) && Alive(s, p) && HasLive(s.procs[p]) && Quiet(p, l)
  }

  lemma HeldStepKeepsFiles(s: State, l: Step, p: Pid)
    requires Inv(s) && HeldBy(p)(s, l) && !Removing(s.procs[p].pc)
    ensures Apply(s, l).files == s.files
    ensures Alive(Apply(s, l), p) ==> !Removing(Apply(s, l).procs[p].pc)
  {
    if l.p != p {
      HolderUndisturbed(s, l, p);
    } else if l.Call? {
      FilesKeptByCall(s, p);
    }
  }

  lemma {:induction false} HeldRunKeepsFiles(s: State, ls: seq<Step>, t: State, p: Pid)
    requires Inv(s) && Run(s, ls, t, HeldBy(p)) && (Alive(s, p) ==> !Removing(s.procs[p].pc))
    ensures t.files == s.files
    decreases |ls|
  {
    if ls != [] {
      StepKeepsInv(s, ls[0]);
      HeldStepKeepsFiles(s, ls[0], p);
      HeldRunKeepsFiles(Apply(s, ls[0]), ls[1..], t, p);
    }
  }

  /** A locked handle from dd_opendir is on a directory with acceptable `time` and `type`
      elements, and whatever the other processes do they stay as they are for as long
      as the holder keeps the handle and does not change them itself. */
  lemma OpenedHandleKeepsFiles(s: State, p: Pid, ls: seq<Step>, t: State)
    requires Inv(s) && FileInv(s) && Alive(s, p) && s.procs[p].pc.CheckType?
    requires |DoCall(s, p).procs[p].handles| > |s.procs[p].handles|
    requires Run(DoCall(s, p), ls, t, HeldBy(p))
    ensures Valid(t.files, Time) && Valid(t.files, Type) && t.files == s.files
  {
    assert ProcOk(s, p, s.procs[p]) && FilesOk(s, s.procs[p].pc);
    StepKeepsInv(s, Call(p));
    HeldRunKeepsFiles(DoCall(s, p), ls, t, p);
  }

  /** The unlink of `.lock` in dd_delete leaves an empty, free directory, whoever else is
      waiting for it. */
  lemma DeleteReachesDeleted(s: State, p: Pid)
    requires Inv(s) && FileInv(s) && Alive(s, p) && s.procs[p].pc.RemoveLock?
    ensures var t := DoCall(s, p);
      Inv(t) && t.files == map[] && t.link == NoLink && forall q | Alive(t, q) :: !Holding(t.procs[q])
  {
    var t := DoCall(s, p);
    assert ProcOk(s, p, s.procs[p]) && FilesOk(s, s.procs[p].pc);
    StepKeepsInv(s, Call(p));
    forall q | Alive(t, q) ensures !Holding(t.procs[q]) {
      assert ProcOk(t, q, t.procs[q]);
    }
  }

  /** A step that does not save a `time` element with acceptable content. */
  predicate SavesNoTime(s: State, l: Step) {
    !(l.Save? && l.name == Time && l.valid)
  }

  /** There is no acceptable `time` element and no opener that has just seen one. */
  ghost predicate Deleted(s: State) {
    !Valid(s.files, Time) && forall p | Alive(s, p) :: !s.procs[p].pc.CheckType?
  }

  lemma CallKeepsDeleted(s: State, p: Pid)
    requires Deleted(s) && Enabled(s, Call(p))
    ensures Deleted(DoCall(s, p))
  {
    FilesKeptByCall(s, p);
    CallFrame(s, p);
    assert !DoCall(s, p).procs[p].pc.CheckType?;
  }

  lemma StepKeepsDeleted(s: State, l: Step)
    requires Deleted(s) && Enabled(s, l) && SavesNoTime(s, l)
    ensures Deleted(Apply(s, l))
  {
    if l.Call? {
      CallKeepsDeleted(s, l.p);
    } else {
      Frame(s, l);
    }
  }

  /** From there no opener gets past the check for a time file, in any run at all, until
      a new time file is saved. */
  lemma DeletedStaysDeleted(s: State, ls: seq<Step>, t: State)
    requires Deleted(s) && Run(s, ls, t, SavesNoTime)
    ensures Deleted(t)
  {
    forall u, l | Deleted(u) && Enabled(u, l) && SavesNoTime(u, l) ensures Deleted(Apply(u, l)) {
      StepKeepsDeleted(u, l);
    }
    RunKeeps(s, ls, t, SavesNoTime, Deleted);
  }

  /** An opener is given its handle only by the step that finds the type file, after the
      one that found the time file. */
  lemma OpenerGrantedIff(s: State, p: Pid)
    requires p in s.procs && Locking(s.procs[p].pc) && s.procs[p].pc.op.opener
    ensures |DoCall(s, p).procs[p].handles| > |s.procs[p].handles| <==> s.procs[p].pc.CheckType? && Valid(s.files, Type)
  {
    match s.procs[p].pc
    case TrySymlink(op) =>
    case ReadLink(op) =>
    case CheckAlive(op, seen) =>
    case BreakStale(op, seen) =>
    case CheckTime(op, owns) =>
    case CheckType(op, owns) =>
    case BackOff(op, owns) =>
  }

  /** Once a deleter has removed the files no opener gets a locked handle, whatever all
      processes do from there on, thefts included, until a new time file is saved. */
  lemma NoOpenerAfterDelete(s: State, p: Pid, ls: seq<Step>, t: State, q: Pid)
    requires Inv(s) && FileInv(s) && Alive(s, p) && s.procs[p].pc.RemoveLock?
    requires Run(DoCall(s, p), ls, t, SavesNoTime)
    requires Alive(t, q) && Locking(t.procs[q].pc) && t.procs[q].pc.op.opener
    ensures |DoCall(t, q).procs[q].handles| <= |t.procs[q].handles|
  {
    DeleteReachesDeleted(s, p);
    DeletedStaysDeleted(DoCall(s, p), ls, t);
    OpenerGrantedIff(t, q);
  }

  // ----- bounded retries -----

  /** The retries a dd_lock in progress may still make after a failed check. */
  function Budget(q: Proc): nat {
    if q.alive && Locking(q.pc) then q.pc.op.count else 0
  }

  /** How often p unlocks and backs off along ls. */
  ghost function BackOffs(s: State, ls: seq<Step>, p: Pid): nat
    decreases |ls|
  {
    if ls == [] || !Enabled(s, ls[0]) then 0
    else (if ls[0] == Call(p) && s.procs[p].pc.BackOff? then 1 else 0) + BackOffs(Apply(s, ls[0]), ls[1..], p)
  }

  /** p does not start another dd_lock. */
  function NoStartBy(p: Pid): (State, Step) -> bool {
    (_: State, l: Step) => l.p == p ==> !l.StartOpen? && !l.StartCreate?
  }

  predicate InRange(q: Proc) {
    q.alive && Locking(q.pc) ==> 1 <= q.pc.op.count <= NO_TIME_FILE_COUNT
  }

  lemma CallBudget(s: State, p: Pid)
    requires Enabled(s, Call(p)) && InRange(s.procs[p])
    ensures var q := DoCall(s, p).procs[p];
      InRange(q) && Budget(q) + (if s.procs[p].pc.BackOff? then 1 else 0) <= Budget(s.procs[p])
  {
    var q := s.procs[p];
    if q.pc.BackOff? {
      var op := q.pc.op;
      assert DoCall(s, p).procs[p].pc == if op.count <= 1 || op.dontWait then Idle else TrySymlink(op.(count := op.count - 1));
    } else if Locking(q.pc) {
      assert Locking(DoCall(s, p).procs[p].pc) ==> DoCall(s, p).procs[p].pc.op == q.pc.op;
    } else {
      assert !Locking(DoCall(s, p).procs[p].pc);
    }
  }

  lemma BudgetStep(s: State, l: Step, p: Pid)
    requires Enabled(s, l) && NoStartBy(p)(s, l) && p in s.procs && InRange(s.procs[p])
    ensures p in Apply(s, l).procs && InRange(Apply(s, l).procs[p])
    ensures Budget(Apply(s, l).procs[p]) + (if l == Call(p) && s.procs[p].pc.BackOff? then 1 else 0) <= Budget(s.procs[p])
  {
    if l == Call(p) {
      CallBudget(s, p);
    } else {
      Frame(s, l);
    }
  }

  /** One dd_lock backs off at most NO_TIME_FILE_COUNT times before it gives up, whatever
      the other processes do. */
  lemma {:induction false} RetriesBounded(s: State, ls: seq<Step>, t: State, p: Pid)
    requires Run(s, ls, t, NoStartBy(p)) && p in s.procs && InRange(s.procs[p])
    ensures BackOffs(s, ls, p) <= Budget(s.procs[p]) <= NO_TIME_FILE_COUNT
    decreases |ls|
  {
    if ls != [] {
      BudgetStep(s, ls[0], p);
      RetriesBounded(Apply(s, ls[0]), ls[1..], t, p);
    }
  }

  // ----- when dd_lock and dd_delete give up -----

  /** The directory stays, and p goes on with what it is doing. */
  function Patient(p: Pid): (State, Step) -> bool {
    (s: State, l: Step) => s.present && (l.p == p ==> l.Call?)
  }

  /** In dd_lock, ready to wait. */
  predicate Waits(q: Proc) {
    q.alive && Locking(q.pc) && !q.pc.op.dontWait && q.pc.op.count >= 1
  }

  /** q' is what q is after n failed checks: it waits still, has its handle, or has failed the last check. */
  predicate After(q: Proc, n: nat, q': Proc)
    requires Waits(q)
  {
    var left := q.pc.op.count - n;
    || !q'.alive
    || (Waits(q') && q'.handles == q.handles && q'.pc.op.count == left)
    || (q'.pc.Idle? && |q'.handles| == |q.handles| + 1 && left > 0)
    || (q'.pc.Idle? && q'.handles == q.handles && left == 0)
  }

  lemma CallWaits(s: State, p: Pid)
    requires Enabled(s, Call(p)) && s.present && Waits(s.procs[p])
    ensures After(s.procs[p], if s.procs[p].pc.BackOff? then 1 else 0, DoCall(s, p).procs[p])
  {
    match s.procs[p].pc
    case TrySymlink(op) =>
    case ReadLink(op) =>
    case CheckAlive(op, seen) =>
    case BreakStale(op, seen) =>
    case CheckTime(op, owns) =>
    case CheckType(op, owns) =>
    case BackOff(op, owns) =>
  }

  lemma {:induction false} IdleStays(s: State, ls: seq<Step>, t: State, p: Pid)
    requires p in s.procs && (s.procs[p].alive ==> s.procs[p].pc.Idle?) && Run(s, ls, t, Patient(p))
    ensures p in t.procs && t.procs[p] == s.procs[p] && BackOffs(s, ls, p) == 0
    decreases |ls|
  {
    if ls != [] {
      Frame(s, ls[0]);
      IdleStays(Apply(s, ls[0]), ls[1..], t, p);
    }
  }

  /** A dd_lock that waits ends, if it ends, with a handle, or after exactly as many failed
      checks as it had retries left: it never gives up on a live holder. */
  lemma {:induction false} GivesUpAfterRetries(s: State, ls: seq<Step>, t: State, p: Pid)
    requires p in s.procs && Waits(s.procs[p]) && Run(s, ls, t, Patient(p))
    ensures p in t.procs && After(s.procs[p], BackOffs(s, ls, p), t.procs[p])
    decreases |ls|
  {
    if ls != [] {
      var s' := Apply(s, ls[0]);
      Frame(s, ls[0]);
      if ls[0].p == p {
        CallWaits(s, p);
      }
      if Waits(s'.procs[p]) {
        GivesUpAfterRetries(s', ls[1..], t, p);
      } else {
        IdleStays(s', ls[1..], t, p);
      }
    }
  }

  /** Hence dd_opendir gives up only after ten failed checks. */
  lemma OpenGivesUpAfterTen(s: State, ls: seq<Step>, t: State, p: Pid)
    requires Enabled(s, StartOpen(p, false)) && Run(Apply(s, StartOpen(p, false)), ls, t, Patient(p))
    requires Alive(t, p) && t.procs[p].pc.Idle?
    ensures if BackOffs(Apply(s, StartOpen(p, false)), ls, p) == 10 then t.procs[p].handles == s.procs[p].handles
            else |t.procs[p].handles| == |s.procs[p].handles| + 1
  {
    GivesUpAfterRetries(Apply(s, StartOpen(p, false)), ls, t, p);
  }

  /** In dd_lock for dd_create, which checks nothing. */
  predicate Creating(pc: Pc) {
    (pc.TrySymlink? || pc.ReadLink? || pc.CheckAlive? || pc.BreakStale?) && !pc.op.opener
  }

  lemma {:induction false} CreatorNeverBacksOff(s: State, ls: seq<Step>, t: State, p: Pid)
    requires p in s.procs && Creating(s.procs[p].pc) && Waits(s.procs[p]) && Run(s, ls, t, Patient(p))
    ensures BackOffs(s, ls, p) == 0
    decreases |ls|
  {
    if ls != [] {
      var s' := Apply(s, ls[0]);
      Frame(s, ls[0]);
      if ls[0].p == p {
        CallWaits(s, p);
      }
      if Waits(s'.procs[p]) {
        CreatorNeverBacksOff(s', ls[1..], t, p);
      } else {
        IdleStays(s', ls[1..], t, p);
      }
    }
  }

  /** A dd_create waits as long as it takes: when it is back, it has its handle. */
  lemma CreateWaits(s: State, parents: bool, ls: seq<Step>, t: State, p: Pid)
    requires Enabled(s, StartCreate(p, parents)) && Run(Apply(s, StartCreate(p, parents)), ls, t, Patient(p))
    requires Alive(t, p) && t.procs[p].pc.Idle?
    ensures |t.procs[p].handles| == |s.procs[p].handles| + 1
  {
    var s' := Apply(s, StartCreate(p, parents));
    CreatorNeverBacksOff(s', ls, t, p);
    GivesUpAfterRetries(s', ls, t, p);
  }

  /** A process ends by itself exactly when it unlinks a link that somebody else has taken away. */
  lemma DiesIff(s: State, l: Step)
    requires Enabled(s, l) && !l.Spawn?
    ensures !Alive(Apply(s, l), l.p) <==>
      || l.Crash?
      || (s.link == NoLink && l.Close? && s.procs[l.p].handles[l.i].owns)
      || (s.link == NoLink && l.Call? && (s.procs[l.p].pc.RemoveLock? || (s.procs[l.p].pc.BackOff? && s.procs[l.p].pc.owns)))
  {
  }

  /** A call that fails gives no handle, takes none and leaves the link alone; in dd_lock it
      ends the operation, unless it was a check, after which the process backs off. */
  lemma FailureEnds(s: State, p: Pid)
    requires Enabled(s, CallFails(p))
    ensures var s' := Apply(s, CallFails(p)); var pc, pc' := s.procs[p].pc, s'.procs[p].pc;
      && s'.procs[p].handles == s.procs[p].handles && s'.link == s.link && s'.files == s.files
      && if Locking(pc) then (pc'.Idle? || (pc'.BackOff? && pc'.op == pc.op)) && (pc'.Idle? <==> pc.TrySymlink? || pc.ReadLink? || pc.BreakStale?)
         else pc'.Idle? || pc'.RemoveDir?
  {
  }

  /** With the flag not to wait, seeing a live holder ends dd_lock, and so does a failed check. */
  lemma DontWaitGivesUp(s: State, p: Pid)
    requires Alive(s, p) && Locking(s.procs[p].pc) && s.procs[p].pc.op.dontWait
    requires s.procs[p].pc.BackOff? || (s.procs[p].pc.CheckAlive? && s.procs[p].pc.seen.ByPid? && Alive(s, s.procs[p].pc.seen.pid))
    ensures DoCall(s, p).procs[p].pc.Idle? && DoCall(s, p).procs[p].handles == s.procs[p].handles
  {
  }

  // ----- what a process that nobody disturbs gets -----

  /** p makes its calls, and they do not fail for reasons of their own. */
  function Alone(p: Pid): (State, Step) -> bool {
    (_: State, l: Step) => l.p == p && !l.Crash? && !l.CallFails?
  }

  predicate HeldByOther(s: State, p: Pid) {
    s.link.ByPid? && s.link.pid != p && Alive(s, s.link.pid)
  }

  /** s but for the link and what p is doing, errno having been overwritten. */
  function At(s: State, p: Pid, link: Link, pc: Pc): State
    requires p in s.procs
  {
    Set(s.(link := link), p, s.procs[p].(errno := OtherErrno, pc := pc))
  }

  lemma TwoCalls(s: State, p: Pid, t: State, ok: (State, Step) -> bool)
    requires Enabled(s, Call(p)) && ok(s, Call(p))
    requires var u := DoCall(s, p); Enabled(u, Call(p)) && ok(u, Call(p)) && t == DoCall(u, p)
    ensures Run(s, [Call(p), Call(p)], t, ok)
  {
    TwoSteps(s, Call(p), Call(p), t, ok);
  }

  lemma BreaksStale(s: State, p: Pid, op: Op)
    requires Alive(s, p) && s.present && s.link != NoLink && s.link != ByPid(p) && !HeldByOther(s, p)
    ensures var two := [Call(p), Call(p)];
      Run(At(s, p, s.link, TrySymlink(op)), two + two, At(s, p, NoLink, TrySymlink(op)), Alone(p))
  {
    var s0, s2, s4 := At(s, p, s.link, TrySymlink(op)), At(s, p, s.link, CheckAlive(op, s.link)), At(s, p, NoLink, TrySymlink(op));
    var two := [Call(p), Call(p)];
    TwoCalls(s0, p, s2, Alone(p));
    TwoCalls(s2, p, s4, Alone(p));
    RunsJoin(s0, two, s2, two, s4, Alone(p));
  }

  /** Whatever was there - nothing, its own link or a stale one - p gets the link. */
  lemma Acquires(s: State, p: Pid, op: Op) returns (ls: seq<Step>)
    requires Alive(s, p) && s.present && op.opener && !HeldByOther(s, p)
    ensures Run(At(s, p, s.link, TrySymlink(op)), ls, At(s, p, ByPid(p), CheckTime(op, s.link != ByPid(p))), Alone(p))
  {
    var s0, end := At(s, p, s.link, TrySymlink(op)), At(s, p, ByPid(p), CheckTime(op, s.link != ByPid(p)));
    if s.link == ByPid(p) {
      TwoCalls(s0, p, end, Alone(p));
      ls := [Call(p), Call(p)];
    } else {
      var free := At(s, p, NoLink, TrySymlink(op));
      ls := if s.link == NoLink then [] else [Call(p), Call(p)] + [Call(p), Call(p)];
      if s.link != NoLink {
        BreaksStale(s, p, op);
      }
      OneStep(free, Call(p), Alone(p));
      RunsJoin(s0, ls, free, [Call(p)], end, Alone(p));
      ls := ls + [Call(p)];
    }
  }

  /** Both checks pass, and p has its handle. */
  lemma ChecksPass(s: State, p: Pid, op: Op, owns: bool)
    requires Alive(s, p) && Valid(s.files, Time) && Valid(s.files, Type)
    ensures Run(At(s, p, s.link, CheckTime(op, owns)), [Call(p), Call(p)], Grant(At(s, p, s.link, Idle), p, owns), Alone(p))
  {
    TwoCalls(At(s, p, s.link, CheckTime(op, owns)), p, Grant(At(s, p, s.link, Idle), p, owns), Alone(p));
  }

  /** One of them fails, and p is about to back off. */
  lemma CheckFails(s: State, p: Pid, op: Op, owns: bool) returns (ls: seq<Step>)
    requires Alive(s, p) && !(Valid(s.files, Time) && Valid(s.files, Type))
    ensures Run(At(s, p, s.link, CheckTime(op, owns)), ls, At(s, p, s.link, BackOff(op, owns)), Alone(p))
  {
    var s0 := At(s, p, s.link, CheckTime(op, owns));
    if Valid(s.files, Time) {
      TwoCalls(s0, p, At(s, p, s.link, BackOff(op, owns)), Alone(p));
      ls := [Call(p), Call(p)];
    } else {
      OneStep(s0, Call(p), Alone(p));
      ls := [Call(p)];
    }
  }

  lemma BacksOff(s: State, p: Pid, op: Op)
    requires Alive(s, p)
    ensures DoCall(At(s, p, ByPid(p), BackOff(op, s.link != ByPid(p))), p) == At(s, p, if s.link == ByPid(p) then s.link else NoLink,
      if op.count <= 1 || op.dontWait then Idle else TrySymlink(op.(count := op.count - 1)))
  {
  }

  /** One round of dd_lock on a directory without acceptable files: the link is as before, or gone. */
  lemma OneRound(s: State, p: Pid, op: Op) returns (ls: seq<Step>)
    requires Alive(s, p) && s.present && op.opener && !HeldByOther(s, p)
    requires !(Valid(s.files, Time) && Valid(s.files, Type))
    ensures Run(At(s, p, s.link, TrySymlink(op)), ls, At(s, p, if s.link == ByPid(p) then s.link else NoLink,
      if op.count <= 1 || op.dontWait then Idle else TrySymlink(op.(count := op.count - 1))), Alone(p))
  {
    var owns, held := s.link != ByPid(p), s.(link := ByPid(p));
    var first := Acquires(s, p, op);
    var second := CheckFails(held, p, op, owns);
    var s0, s2 := At(s, p, s.link, TrySymlink(op)), At(s, p, ByPid(p), BackOff(op, owns));
    RunsJoin(s0, first, At(s, p, ByPid(p), CheckTime(op, owns)), second, s2, Alone(p));
    BacksOff(s, p, op);
    OneStep(s2, Call(p), Alone(p));
    RunsJoin(s0, first + second, s2, [Call(p)], DoCall(s2, p), Alone(p));
    ls := first + second + [Call(p)];
  }

  lemma {:induction false} AllRounds(s: State, p: Pid, op: Op) returns (ls: seq<Step>)
    requires Alive(s, p) && s.present && op.opener && !HeldByOther(s, p) && op.count >= 1
    requires !(Valid(s.files, Time) && Valid(s.files, Type))
    ensures Run(At(s, p, s.link, TrySymlink(op)), ls, At(s, p, if s.link == ByPid(p) then s.link else NoLink, Idle), Alone(p))
    decreases op.count
  {
    ls := OneRound(s, p, op);
    if op.count > 1 && !op.dontWait {
      var link := if s.link == ByPid(p) then s.link else NoLink;
      var next := op.(count := op.count - 1);
      var more := AllRounds(s.(link := link), p, next);
      RunsJoin(At(s, p, s.link, TrySymlink(op)), ls, At(s, p, link, TrySymlink(next)), more, At(s, p, link, Idle), Alone(p));
      ls := ls + more;
    }
  }

  /** dd_opendir finds the directory free or its own, and complete. */
  predicate Openable(s: State, p: Pid) {
    s.present && !HeldByOther(s, p) && Valid(s.files, Time) && Valid(s.files, Type)
  }

  /** A dd_opendir that nobody disturbs ends, unless it waits for a live holder, and then
      this is the whole effect: it has a handle exactly if the directory is there, complete
      and not locked by another live process; the handle owns the link unless p had it
      before; and nothing is left locked otherwise. */
  lemma OpenAlone(s: State, p: Pid, dontWait: bool) returns (ls: seq<Step>, t: State)
    requires Alive(s, p) && s.procs[p].pc.Idle? && (HeldByOther(s, p) ==> dontWait)
    ensures Run(s, [StartOpen(p, dontWait)] + ls, t, Alone(p))
    ensures var link := if !s.present || HeldByOther(s, p) || s.link == ByPid(p) then s.link else if Openable(s, p) then ByPid(p) else NoLink;
      t == if Openable(s, p) then Grant(At(s, p, link, Idle), p, s.link != ByPid(p)) else At(s, p, link, Idle)
  {
    var op := Op(true, dontWait, NO_TIME_FILE_COUNT);
    var s1 := At(s, p, s.link, TrySymlink(op));
    if !s.present {
      t := At(s, p, s.link, Idle);
      OneStep(s1, Call(p), Alone(p));
      ls := [Call(p)];
    } else if HeldByOther(s, p) {
      t := At(s, p, s.link, Idle);
      var s3 := At(s, p, s.link, CheckAlive(op, s.link));
      TwoCalls(s1, p, s3, Alone(p));
      OneStep(s3, Call(p), Alone(p));
      RunsJoin(s1, [Call(p), Call(p)], s3, [Call(p)], t, Alone(p));
      ls := [Call(p), Call(p)] + [Call(p)];
    } else if Openable(s, p) {
      var owns, held := s.link != ByPid(p), s.(link := ByPid(p));
      t := Grant(At(s, p, ByPid(p), Idle), p, owns);
      ls := Acquires(s, p, op);
      ChecksPass(held, p, op, owns);
      RunsJoin(s1, ls, At(s, p, ByPid(p), CheckTime(op, owns)), [Call(p), Call(p)], t, Alone(p));
      ls := ls + [Call(p), Call(p)];
    } else {
      t := At(s, p, if s.link == ByPid(p) then s.link else NoLink, Idle);
      ls := AllRounds(s, p, op);
    }
    OneStep(s, StartOpen(p, dontWait), Alone(p));
    RunsJoin(s, [StartOpen(p, dontWait)], s1, ls, t, Alone(p));
  }

  /** Without the flag it waits as long as the other process lives and keeps its link. */
  lemma {:induction false} WaitsForHolder(s: State, ls: seq<Step>, t: State, p: Pid)
    requires Alive(s, p) && s.present && HeldByOther(s, p) && Run(s, ls, t, Alone(p))
    requires WaitsFor(s.procs[p].pc, s.link)
    ensures Alive(t, p) && WaitsFor(t.procs[p].pc, s.link) && t.link == s.link && t.procs[p].handles == s.procs[p].handles
    decreases |ls|
  {
    if ls != [] {
      assert ls[0] == Call(p);
      WaitsForHolder(Apply(s, ls[0]), ls[1..], t, p);
    }
  }

  predicate WaitsFor(pc: Pc, link: Link) {
    (pc.TrySymlink? || pc.ReadLink? || (pc.CheckAlive? && pc.seen == link)) && !pc.op.dontWait
  }

  lemma TwoSteps(s: State, l1: Step, l2: Step, t: State, ok: (State, Step) -> bool)
    requires Enabled(s, l1) && ok(s, l1)
    requires Enabled(Apply(s, l1), l2) && ok(Apply(s, l1), l2) && t == Apply(Apply(s, l1), l2)
    ensures Run(s, [l1, l2], t, ok)
  {
    OneStep(s, l1, ok);
    OneStep(Apply(s, l1), l2, ok);
    RunsJoin(s, [l1], Apply(s, l1), [l2], t, ok);
  }

  lemma Creates(s: State, p: Pid)
    requires Alive(s, p) && s.procs[p].pc.Idle? && s.link == NoLink && s.procs[p].errno != EAlready
    ensures Run(s, [StartCreate(p, true), Call(p)], Grant(At(s.(present := true), p, ByPid(p), Idle), p, true), Alone(p))
  {
    TwoSteps(s, StartCreate(p, true), Call(p), Grant(At(s.(present := true), p, ByPid(p), Idle), p, true), Alone(p));
  }

  lemma SavesBoth(s: State, p: Pid)
    requires Alive(s, p) && s.procs[p].pc.Idle? && s.present && s.procs[p].handles != []
    ensures Run(s, [Save(p, Time, true), Save(p, Type, true)], s.(files := s.files[Time := true][Type := true]), Alone(p))
  {
    TwoSteps(s, Save(p, Time, true), Save(p, Type, true), s.(files := s.files[Time := true][Type := true]), Alone(p));
  }

  function Filling(p: Pid): seq<Step> {
    [StartCreate(p, true), Call(p)] + [Save(p, Time, true), Save(p, Type, true)] + [Close(p, 0)]
  }

  /** Deleting one of the two elements keeps every process from opening the directory. */
  lemma IncompleteIsClosed(s: State, p: Pid, n: Name, q: Pid)
    requires Enabled(s, DeleteItem(p, n)) && (n == Time || n == Type)
    ensures !Openable(Apply(s, DeleteItem(p, n)), q)
  {
  }

  lemma ClosesLast(s: State, p: Pid) returns (t: State)
    requires Alive(s, p) && s.procs[p].pc.Idle? && s.procs[p].handles == [Handle(true)] && s.link != NoLink
    ensures Run(s, [Close(p, 0)], t, Alone(p)) && t.link == NoLink && t.files == s.files && t.present == s.present
  {
    t := Apply(s, Close(p, 0));
    OneStep(s, Close(p, 0), Alone(p));
  }

  /** Creating a directory, saving the two elements and closing it lets every process open
      it afterwards. */
  lemma CreatedIsOpenable(s: State, p: Pid) returns (t: State)
    requires Alive(s, p) && s.procs[p].pc.Idle? && s.procs[p].handles == [] && s.procs[p].errno != EAlready
    requires s.link == NoLink
    ensures Run(s, Filling(p), t, Alone(p)) && t.link == NoLink && forall q :: Openable(t, q)
  {
    var s1 := Grant(At(s.(present := true), p, ByPid(p), Idle), p, true);
    var s2 := s1.(files := s1.files[Time := true][Type := true]);
    Creates(s, p);
    SavesBoth(s1, p);
    t := ClosesLast(s2, p);
    var first, second := [StartCreate(p, true), Call(p)], [Save(p, Time, true), Save(p, Type, true)];
    RunsJoin(s, first, s1, second, s2, Alone(p));
    RunsJoin(s, first + second, s2, [Close(p, 0)], t, Alone(p));
  }

  lemma {:induction false} RemovesFiles(s: State, p: Pid, todo: set<Name>, sawLock: bool) returns (ls: seq<Step>)
    requires Alive(s, p) && s.procs[p].pc == RemoveFiles(todo, sawLock) && s.files.Keys <= todo
    ensures Run(s, ls, Goto(s.(files := map[]), p, RemoveFiles({}, sawLock)), Alone(p))
    decreases |todo|
  {
    var t := Goto(s.(files := map[]), p, RemoveFiles({}, sawLock));
    if todo == {} {
      ls := [];
      assert s.files == map[] && s == t;
    } else {
      var name :| name in todo;
      var s' := Apply(s, Remove(p, name));
      ls := RemovesFiles(s', p, todo - {name}, sawLock);
      OneStep(s, Remove(p, name), Alone(p));
      assert Goto(s'.(files := map[]), p, RemoveFiles({}, sawLock)) == t;
      RunsJoin(s, [Remove(p, name)], s', ls, t, Alone(p));
      ls := [Remove(p, name)] + ls;
    }
  }

  /** The directory is gone, and p is rid of its last handle. */
  ghost predicate Removed(s: State, p: Pid, t: State)
    requires p in s.procs && s.procs[p].handles != []
  {
    && !t.present && t.link == NoLink && t.files == map[] && Alive(t, p) && t.procs[p].pc.Idle?
    && t.procs[p].handles == s.procs[p].handles[..|s.procs[p].handles| - 1]
    && forall q | q != p && q in s.procs :: q in t.procs && t.procs[q] == s.procs[q]
  }

  lemma RemovesDirectory(s: State, p: Pid) returns (ls: seq<Step>, t: State)
    requires Alive(s, p) && s.procs[p].pc == RemoveFiles({}, s.link != NoLink) && s.files == map[]
    requires s.present && s.procs[p].handles != []
    ensures Run(s, ls, t, Alone(p)) && Removed(s, p, t)
  {
    if s.link == NoLink {
      var s1 := Goto(s, p, RemoveDir(RMDIR_FAIL_COUNT));
      t := DoCall(s1, p);
      TwoCalls(s, p, t, Alone(p));
      ls := [Call(p), Call(p)];
    } else {
      var q := s.procs[p];
      var s2 := Set(s.(link := NoLink), p, q.(pc := RemoveDir(RMDIR_FAIL_COUNT), gone := |q.handles|));
      TwoCalls(s, p, s2, Alone(p));
      OneStep(s2, Call(p), Alone(p));
      t := DoCall(s2, p);
      RunsJoin(s, [Call(p), Call(p)], s2, [Call(p)], t, Alone(p));
      ls := [Call(p), Call(p)] + [Call(p)];
    }
  }

  /** A dd_delete that nobody disturbs removes the elements, the link and the directory, and
      takes its handle - also when it is called again after one that gave up. */
  lemma DeleteAlone(s: State, p: Pid) returns (ls: seq<Step>, t: State)
    requires s.present && Alive(s, p) && s.procs[p].pc.Idle? && s.procs[p].handles != []
    ensures Run(s, [StartDelete(p)] + ls, t, Alone(p)) && Removed(s, p, t)
  {
    var s1 := Apply(s, StartDelete(p));
    var first := RemovesFiles(s1, p, s.files.Keys, s.link != NoLink);
    var s2 := Goto(s1.(files := map[]), p, RemoveFiles({}, s.link != NoLink));
    var second;
    second, t := RemovesDirectory(s2, p);
    RunsJoin(s1, first, s2, second, t, Alone(p));
    OneStep(s, StartDelete(p), Alone(p));
    RunsJoin(s, [StartDelete(p)], s1, first + second, t, Alone(p));
    ls := first + second;
  }

  /** How often p tries rmdir along ls. */
  ghost function Tries(s: State, ls: seq<Step>, p: Pid): nat
    decreases |ls|
  {
    if ls == [] || !Enabled(s, ls[0]) then 0
    else (if ls[0].p == p && Alive(s, p) && s.procs[p].pc.RemoveDir? && !ls[0].Crash? then 1 else 0) + Tries(Apply(s, ls[0]), ls[1..], p)
  }

  /** The calls of p, whatever comes of them. */
  function Calling(p: Pid): (State, Step) -> bool {
    (_: State, l: Step) => l.p == p ==> l.Call? || l.CallFails?
  }

  lemma {:induction false} IdleNeverTries(s: State, ls: seq<Step>, t: State, p: Pid)
    requires Alive(s, p) && s.procs[p].pc.Idle? && Run(s, ls, t, Calling(p))
    ensures Alive(t, p) && t.procs[p] == s.procs[p] && Tries(s, ls, p) == 0
    decreases |ls|
  {
    if ls != [] {
      Frame(s, ls[0]);
      IdleNeverTries(Apply(s, ls[0]), ls[1..], t, p);
    }
  }

  /** q' is what q is after n tries: it goes on, has failed the last one, or is rid of the handle. */
  predicate AfterTries(q: Proc, n: nat, q': Proc)
    requires q.pc.RemoveDir?
  {
    && q'.alive
    && match q'.pc
       case RemoveDir(cnt) => n == q.pc.cnt - cnt && cnt >= 1 && q'.handles == q.handles
       case Idle => if q'.handles == q.handles then n == q.pc.cnt else n <= q.pc.cnt && |q'.handles| == |q.handles| - 1
       case _ => false
  }

  lemma TryStep(s: State, l: Step, p: Pid)
    requires Enabled(s, l) && Calling(p)(s, l) && Alive(s, p) && s.procs[p].pc.RemoveDir? && s.procs[p].pc.cnt >= 1
    ensures p in Apply(s, l).procs && AfterTries(s.procs[p], if l.p == p then 1 else 0, Apply(s, l).procs[p])
  {
    Frame(s, l);
  }

  /** dd_delete keeps its handle and gives up after exactly as many failures of rmdir as it
      had tries left, or is rid of the handle before. */
  lemma {:induction false} RmdirGivesUp(s: State, ls: seq<Step>, t: State, p: Pid)
    requires Alive(s, p) && s.procs[p].pc.RemoveDir? && s.procs[p].pc.cnt >= 1 && Run(s, ls, t, Calling(p))
    ensures p in t.procs && AfterTries(s.procs[p], Tries(s, ls, p), t.procs[p])
    decreases |ls|
  {
    if ls != [] {
      var s' := Apply(s, ls[0]);
      TryStep(s, ls[0], p);
      if s'.procs[p].pc.Idle? {
        IdleNeverTries(s', ls[1..], t, p);
      } else {
        RmdirGivesUp(s', ls[1..], t, p);
      }
    }
  }

  /** A dd_delete that has removed the elements and is back with its handle has tried rmdir
      fifty times. */
  lemma DeleteGivesUpAfterFifty(s: State, ls: seq<Step>, t: State, p: Pid)
    requires Alive(s, p) && Alive(DoCall(s, p), p) && Run(DoCall(s, p), ls, t, Calling(p))
    requires s.procs[p].pc.RemoveLock? || s.procs[p].pc == RemoveFiles({}, false)
    requires Alive(t, p) && t.procs[p].pc.Idle? && t.procs[p].handles == s.procs[p].handles
    ensures Tries(DoCall(s, p), ls, p) == 50
  {
    RmdirGivesUp(DoCall(s, p), ls, t, p);
  }

  // ----- what goes wrong without the hypotheses -----

  /** readlink, the liveness test and unlink are three calls: of any two processes that
      read the same stale link, the slower one can delete the lock the faster one has
      just taken, and then both have a locked handle. */
  lemma StaleRace(s: State, p: Pid, q: Pid) returns (ls: seq<Step>, t: State)
    requires Init(s) && s.present && s.link.ByPid? && Valid(s.files, Time) && Valid(s.files, Type)
    requires p != q && Alive(s, p) && Alive(s, q)
    ensures Run(s, ls, t, Disciplined)
    ensures Alive(t, p) && HasLive(t.procs[p]) && Alive(t, q) && HasLive(t.procs[q])
  {
    var s1 := ReachesBreakStale(s, p);
    var s2 := ReachesBreakStale(s1, q);
    var s3 := BreaksAndLocks(s2, p);
    t := BreaksAndLocks(s3, q);
    ls := Opening(p) + Opening(q) + Breaking(p) + Breaking(q);
    RunsJoin(s, Opening(p), s1, Opening(q), s2, Disciplined);
    RunsJoin(s, Opening(p) + Opening(q), s2, Breaking(p), s3, Disciplined);
    RunsJoin(s, Opening(p) + Opening(q) + Breaking(p), s3, Breaking(q), t, Disciplined);
  }

  function Opening(p: Pid): seq<Step> { [StartOpen(p, false), Call(p), Call(p), Call(p)] }

  function Breaking(p: Pid): seq<Step> { [Call(p), Call(p), Call(p), Call(p)] }

  lemma ReachesBreakStale(s: State, p: Pid) returns (t: State)
    requires Alive(s, p) && s.procs[p].pc.Idle?
    requires s.present && s.link.ByPid? && s.link.pid != p && !Alive(s, s.link.pid)
    ensures t == Set(s, p, s.procs[p].(errno := OtherErrno, pc := BreakStale(Op(true, false, NO_TIME_FILE_COUNT), s.link)))
    ensures Run(s, Opening(p), t, Disciplined)
  {
    var s1 := Apply(s, StartOpen(p, false));
    var s2, s3 := DoCall(s1, p), DoCall(DoCall(s1, p), p);
    t := DoCall(s3, p);
    FourSteps(s, StartOpen(p, false), Call(p), t);
  }

  lemma BreaksAndLocks(s: State, p: Pid) returns (t: State)
    requires Alive(s, p) && s.procs[p].pc.BreakStale? && s.procs[p].errno == OtherErrno
    requires s.procs[p].pc.op.opener && s.present && Valid(s.files, Time) && Valid(s.files, Type)
    ensures t == Grant(s.(link := ByPid(p)), p, true)
    ensures Run(s, Breaking(p), t, Disciplined)
  {
    var s1 := DoCall(s, p);
    var s2, s3 := DoCall(s1, p), DoCall(DoCall(s1, p), p);
    t := DoCall(s3, p);
    FourSteps(s, Call(p), Call(p), t);
  }

  lemma FourSteps(s: State, first: Step, l: Step, t: State)
    requires Disciplined(s, first)
    requires var s1 := Apply(s, first); Disciplined(s1, l)
    requires var s2 := Apply(Apply(s, first), l); Disciplined(s2, l)
    requires var s3 := Apply(Apply(Apply(s, first), l), l); Disciplined(s3, l) && t == Apply(s3, l)
    ensures Run(s, [first, l, l, l], t, Disciplined)
  {
    var s1 := Apply(s, first);
    var s2, s3 := Apply(s1, l), Apply(Apply(s1, l), l);
    OneStep(s3, l, Disciplined);
    RunsJoin(s2, [l], s3, [l], t, Disciplined) by { OneStep(s2, l, Disciplined); }
    RunsJoin(s1, [l], s2, [l] + [l], t, Disciplined) by { OneStep(s1, l, Disciplined); }
    RunsJoin(s, [first], s1, [l] + ([l] + [l]), t, Disciplined) by { OneStep(s, first, Disciplined); }
    assert [first] + ([l] + ([l] + [l])) == [first, l, l, l];
  }

  /** dd_create reads owns_lock off an errno it has not reset: the handle it gets from
      a free directory owns the link, and closing it removes the link, if and only if
      errno was not EALREADY on entry. */
  lemma CreateOwnsIff(s: State, p: Pid)
    requires Inv(s) && Alive(s, p) && s.procs[p].pc.Idle? && s.link == NoLink && s.procs[p].handles == []
    ensures var s1 := Apply(s, StartCreate(p, true)); var s2 := DoCall(s1, p); var s3 := Apply(s2, Close(p, 0));
      && s2.link == ByPid(p) && |s2.procs[p].handles| == 1
      && (s2.procs[p].handles[0].owns <==> s.procs[p].errno != EAlready)
      && (s3.link == NoLink <==> s.procs[p].errno != EAlready)
  {
  }

  /** The stale errno matters only while no link is in the way: a symlink call that finds one
      overwrites it, and nothing is leaked from there on (`RunKeepsNoLeak`). */
  lemma TakenLinkClearsErrno(s: State, p: Pid)
    requires Alive(s, p) && s.procs[p].pc.TrySymlink? && s.present && s.link != NoLink
    requires s.procs[p].gone <= |s.procs[p].handles| && (s.link == ByPid(p) ==> WillUnlink(s.procs[p]))
    ensures NoLeak(DoCall(s, p), p)
  {
    GrantWillUnlink(s.procs[p].(errno := OtherErrno), false);
  }

  /** A dd_delete whose rmdir gave up leaves the handle locked and owning: closing it
      removes the link of whoever has locked the directory meanwhile. */
  lemma CloseAfterFailedDelete(s: State, p: Pid, q: Pid)
    requires Inv(s) && Alive(s, p) && s.procs[p].pc.RemoveDir? && s.procs[p].pc.cnt <= 1
    requires s.procs[p].handles == [Handle(true)]
    requires p != q && Alive(s, q) && Holding(s.procs[q])
    ensures var s1 := DoCall(s, p); var l := Close(p, 0);
      && Inv(s1) && Disciplined(s1, l) && Theft(s1, l) && !Inv(Apply(s1, l))
  {
    assert ProcOk(s, p, s.procs[p]);
    StepKeepsInv(s, Call(p));
    SafeIffNoTheft(DoCall(s, p), Close(p, 0));
  }

  /** The same for a second dd_delete on such a handle, which is still locked: it removes
      the link of whoever has just locked the emptied directory. */
  lemma DeleteAfterFailedDelete(s: State, p: Pid, q: Pid)
    requires Inv(s) && Alive(s, p) && s.procs[p].pc.RemoveDir? && s.procs[p].pc.cnt <= 1
    requires s.procs[p].handles == [Handle(true)] && s.files == map[]
    requires p != q && Alive(s, q) && Holding(s.procs[q])
    ensures var s1 := DoCall(s, p); Enabled(s1, StartDelete(p)) && !Disciplined(s1, StartDelete(p))
    ensures var s2 := DoCall(Apply(DoCall(s, p), StartDelete(p)), p);
      Enabled(s2, Call(p)) && Theft(s2, Call(p)) && !Inv(Apply(s2, Call(p)))
  {
    assert ProcOk(s, p, s.procs[p]);
    assert ProcOk(s, q, s.procs[q]);
    var s2 := DoCall(Apply(DoCall(s, p), StartDelete(p)), p);
    var s3 := Apply(s2, Call(p));
    assert s2.procs[q] == s.procs[q] && s3.procs[q] == s.procs[q];
    assert !ProcOk(s3, q, s3.procs[q]);
  }
}
