/**
 * The machine-wide slot lock as a protocol: any number of processes acquiring, polling,
 * releasing, failing open, being interrupted, spawning children and crashing, over lock files
 * that the kernel gives to one open handle at a time.
 *
 * Process ids are birth numbers, never reused.  A handle a process drops is closed at once.
 */
module SlotLock {
  import opened Text

  type Pid = nat

  datatype LockFile = Slot(dir: string, index: nat) | Turnstile(dir: string)

  /** One entered `held_slot`: the marker read on entry, and the handle acquired, if any. */
  datatype Frame = Frame(prior: Option<string>, handle: Option<LockFile>)

  datatype Pc =
    | Running
    | Trying(dir: string, count: nat, i: nat)           // the non-blocking pass over the slots
    | Queueing(dir: string, count: nat)                 // blocked on the turnstile
    | Polling(dir: string, count: nat, i: nat)          // inside the turnstile, trying slots in turn
    | Claimed(dir: string, count: nat, index: nat, inside: bool) // slot locked, turnstile perhaps still open
    | Waiting(child: Pid)                               // waiting for a child process to end
    | Dead

  /** `base` is the marker the process was born with. */
  datatype Process = Process(pc: Pc, marker: Option<string>, frames: seq<Frame>, base: Option<string>)

  /** `largest` records, for every slot directory, the largest slot count an acquisition used. */
  datatype State = State(
    procs: map<Pid, Process>,
    owner: map<LockFile, Pid>,
    next: Pid,
    largest: map<string, nat>)

  /** An environment variable counts as set when it is present and not empty. */
  predicate Truthy(marker: Option<string>) { marker.Some? && marker.value != "" }

  predicate Acquiring(pc: Pc) { pc.Trying? || pc.Queueing? || pc.Polling? || pc.Claimed? }

  // ------------------------------------------------------------ the steps

  datatype Effect = Effect(process: Process, taken: set<LockFile>, released: set<LockFile>)

  datatype Event =
    | Begin(marker: Option<string>)                      // a process from outside appears
    | Enter(p: Pid, dir: string, count: int)             // `held_slot` is entered
    | Proceed(p: Pid)                                    // the acquisition, or the wait, moves on
    | FailOpen(p: Pid)                                   // the filesystem refuses to cooperate
    | Interrupt(p: Pid)                                  // the acquisition is interrupted
    | Leave(p: Pid)                                      // the innermost `held_slot` is left
    | Spawn(p: Pid, wait: bool)                          // a child inherits the marker, not the handles
    | Finish(p: Pid)                                     // exit or crash: the kernel drops every lock

  /** Locks the process holds a handle on while it is acquiring. */
  function AcquiringLocks(pc: Pc): set<LockFile>
  {
    match pc
    case Polling(dir, _, _) => {Turnstile(dir)}
    case Claimed(dir, _, index, inside) => {Slot(dir, index)} + (if inside then {Turnstile(dir)} else {})
    case _ => {}
  }

  function FrameLocks(frames: seq<Frame>): set<LockFile>
  {
    set f | f in frames && f.handle.Some? :: f.handle.value
  }

  /** Every lock file a process holds an open, locked handle on. */
  function Holds(q: Process): set<LockFile> { AcquiringLocks(q.pc) + FrameLocks(q.frames) }

  function EnterEffect(q: Process, dir: string, count: int): Effect
  {
    if Truthy(q.marker) then Effect(q.(frames := q.frames + [Frame(q.marker, None)]), {}, {})
    else if count <= 0 then Effect(q.(frames := q.frames + [Frame(q.marker, None)], marker := Some("1")), {}, {})
    else Effect(q.(pc := Trying(dir, count, 0)), {}, {})
  }

  /** The next step of an acquisition or of a wait; none while it is blocked. */
  function ProceedEffect(s: State, q: Process): Option<Effect>
  {
    match q.pc
    case Trying(dir, count, i) =>
      if i >= count then Some(Effect(q.(pc := Queueing(dir, count)), {}, {}))
      else if Slot(dir, i) in s.owner then Some(Effect(q.(pc := Trying(dir, count, i + 1)), {}, {}))
      else Some(Effect(q.(pc := Claimed(dir, count, i, false)), {Slot(dir, i)}, {}))
    case Queueing(dir, count) =>
      if Turnstile(dir) in s.owner then None
      else Some(Effect(q.(pc := Polling(dir, count, 0)), {Turnstile(dir)}, {}))
    case Polling(dir, count, i) =>
      if i >= count then Some(Effect(q.(pc := Polling(dir, count, 0)), {}, {}))
      else if Slot(dir, i) in s.owner then Some(Effect(q.(pc := Polling(dir, count, i + 1)), {}, {}))
      else Some(Effect(q.(pc := Claimed(dir, count, i, true)), {Slot(dir, i)}, {}))
    case Claimed(dir, count, index, inside) =>
      if inside then Some(Effect(q.(pc := Claimed(dir, count, index, false)), {}, {Turnstile(dir)}))
      else Some(Effect(
                  q.(pc := Running, frames := q.frames + [Frame(q.marker, Some(Slot(dir, index)))], marker := Some("1")),
                  {}, {}))
    case Waiting(child) =>
      if child in s.procs && s.procs[child].pc.Dead? then Some(Effect(q.(pc := Running), {}, {})) else None
    case _ => None
  }

  function LeaveEffect(q: Process): Effect
    requires q.frames != []
  {
    var top := q.frames[|q.frames| - 1];
    Effect(
      q.(frames := q.frames[..|q.frames| - 1], marker := if Truthy(top.prior) then q.marker else None),
      {},
      if top.handle.Some? then {top.handle.value} else {})
  }

  /** What process p does to itself and to the lock files. */
  function EffectOf(s: State, e: Event): Option<Effect>
    requires !e.Begin?
  {
    if e.p !in s.procs || s.procs[e.p].pc.Dead? then None
    else
      var q := s.procs[e.p];
      match e
      case Enter(_, dir, count) => if q.pc.Running? then Some(EnterEffect(q, dir, count)) else None
      case Proceed(_) => ProceedEffect(s, q)
      case FailOpen(_) =>
        if Acquiring(q.pc) && !(q.pc.Claimed? && !q.pc.inside)
        then Some(Effect(
                    q.(pc := Running, frames := q.frames + [Frame(q.marker, None)], marker := Some("1")),
                    {}, AcquiringLocks(q.pc)))
        else None
      case Interrupt(_) =>
        if Acquiring(q.pc) then Some(Effect(q.(pc := Running), {}, AcquiringLocks(q.pc))) else None
      case Leave(_) => if q.pc.Running? && q.frames != [] then Some(LeaveEffect(q)) else None
      case Spawn(_, wait) =>
        if q.pc.Running? then Some(Effect(if wait then q.(pc := Waiting(s.next)) else q, {}, {})) else None
      case Finish(_) => Some(Effect(q.(pc := Dead, frames := []), {}, Holds(q)))
  }

  function Born(marker: Option<string>): Process { Process(Running, marker, [], marker) }

  function Max(a: nat, b: nat): nat { if a < b then b else a }

  function Widen(largest: map<string, nat>, dir: string, count: nat): map<string, nat>
  {
    largest[dir := if dir in largest then Max(largest[dir], count) else count]
  }

  /** The kernel's side of an effect: dropped handles unlock their file, taken ones lock it. */
  function Relock(owner: map<LockFile, Pid>, p: Pid, f: Effect): map<LockFile, Pid>
  {
    (owner - f.released) + map file | file in f.taken :: p
  }

  function Apply(s: State, p: Pid, f: Effect): State
  {
    s.(procs := s.procs[p := f.process], owner := Relock(s.owner, p, f))
  }

  function WithBirth(s: State, marker: Option<string>): State
  {
    s.(procs := s.procs[s.next := Born(marker)], next := s.next + 1)
  }

  /** What an event adds to the state besides what process p does. */
  function Prepared(s: State, e: Event): State
  {
    match e
    case Begin(marker) => WithBirth(s, marker)
    case Spawn(p, _) => if p in s.procs then WithBirth(s, s.procs[p].marker) else s
    case Enter(_, dir, count) => if count > 0 then s.(largest := Widen(s.largest, dir, count)) else s
    case _ => s
  }

  function Do(s: State, e: Event): Option<State>
  {
    if e.Begin? then Some(Prepared(s, e))
    else
      var f := EffectOf(s, e);
      if f.None? then None else Some(Apply(Prepared(s, e), e.p, f.value))
  }

  const Initial := State(map[], map[], 0, map[])

  // -------------------------------------------------------- the invariant

  /** What is true of every process on its own. */
  ghost predicate Sane(q: Process)
  {
    && (forall k :: 0 < k < |q.frames| ==> q.frames[k].handle.None? && Truthy(q.frames[k].prior))
    && (q.frames != [] ==> Truthy(q.marker))
    && (q.frames != [] && q.frames[0].handle.Some? ==> q.frames[0].handle.value.Slot? && !Truthy(q.frames[0].prior))
    && (Acquiring(q.pc) ==> !Truthy(q.marker) && q.frames == [])
    && (Truthy(q.base) ==> Truthy(q.marker) && (q.frames != [] ==> Truthy(q.frames[0].prior)))
    && (!Truthy(q.base) ==> if q.frames == [] then q.pc.Dead? || !Truthy(q.marker) else !Truthy(q.frames[0].prior))
    && (q.pc.Dead? ==> q.frames == [])
  }

  /** Whoever the kernel's table names for a file has a handle on it. */
  ghost predicate OwnersHold(s: State)
  {
    forall file :: file in s.owner ==> s.owner[file] in s.procs && file in Holds(s.procs[s.owner[file]])
  }

  /** Whoever has a handle on a file is the one the kernel's table names for it. */
  ghost predicate HoldersOwn(s: State)
  {
    forall p, file :: p in s.procs && file in Holds(s.procs[p]) ==> file in s.owner && s.owner[file] == p
  }

  /** The kernel's table agrees with the handles: each locked file has exactly one holder. */
  ghost predicate Agreement(s: State)
  {
    OwnersHold(s) && HoldersOwn(s)
  }

  /** The slots a process may lock stay within the counts that have been used. */
  ghost predicate Counted(q: Process, largest: map<string, nat>)
  {
    && (Acquiring(q.pc) ==> q.pc.dir in largest && 0 < q.pc.count <= largest[q.pc.dir])
    && (q.pc.Claimed? ==> q.pc.index < q.pc.count)
    && (forall file :: file in Holds(q) && file.Slot? ==> file.dir in largest && file.index < largest[file.dir])
  }

  /** A process waits for a child born after it, which inherited its marker. */
  ghost predicate Lineage(procs: map<Pid, Process>, p: Pid, q: Process)
  {
    q.pc.Waiting? ==>
      p < q.pc.child && q.pc.child in procs && (Truthy(q.marker) ==> Truthy(procs[q.pc.child].base))
  }

  ghost predicate Sound(s: State, p: Pid, q: Process)
  {
    p < s.next && Sane(q) && Counted(q, s.largest) && Lineage(s.procs, p, q)
  }

  ghost predicate Inv(s: State)
  {
    Agreement(s) && forall p :: p in s.procs ==> Sound(s, p, s.procs[p])
  }

  lemma FrameLocksConcat(a: seq<Frame>, f: Frame)
    ensures FrameLocks(a + [f]) == FrameLocks(a) + (if f.handle.Some? then {f.handle.value} else {})
  {
  }

  lemma FrameLocksLast(a: seq<Frame>)
    requires a != []
    ensures FrameLocks(a) == FrameLocks(a[..|a| - 1]) + (if a[|a| - 1].handle.Some? then {a[|a| - 1].handle.value} else {})
  {
    assert a == a[..|a| - 1] + [a[|a| - 1]];
    FrameLocksConcat(a[..|a| - 1], a[|a| - 1]);
  }

  /** An effect accounts for every handle it opens or drops, and opens only unlocked files. */
  ghost predicate Accounted(s: State, q: Process, f: Effect)
  {
    && f.released <= Holds(q)
    && (forall file :: file in f.taken ==> file !in s.owner)
    && Holds(f.process) == (Holds(q) - f.released) + f.taken
    && f.process.base == q.base
  }

  lemma EnterSane(s: State, q: Process, dir: string, count: int)
    requires Sane(q) && q.pc.Running?
    ensures Sane(EnterEffect(q, dir, count).process) && Accounted(s, q, EnterEffect(q, dir, count))
  {
    FrameLocksConcat(q.frames, Frame(q.marker, None));
  }

  lemma ProceedSane(s: State, q: Process)
    requires Sane(q) && ProceedEffect(s, q).Some?
    ensures Sane(ProceedEffect(s, q).value.process) && Accounted(s, q, ProceedEffect(s, q).value)
  {
    if q.pc.Claimed? {
      FrameLocksConcat(q.frames, Frame(q.marker, Some(Slot(q.pc.dir, q.pc.index))));
    }
  }

  lemma LeaveSane(s: State, q: Process)
    requires Sane(q) && q.pc.Running? && q.frames != []
    ensures Sane(LeaveEffect(q).process) && Accounted(s, q, LeaveEffect(q))
  {
    var n := |q.frames| - 1;
    FrameLocksLast(q.frames);
    if n > 0 {
      assert q.frames[n].handle.None? && Truthy(q.frames[n].prior);
    }
  }

  lemma EffectSane(s: State, e: Event)
    requires !e.Begin? && EffectOf(s, e).Some? && Sane(s.procs[e.p])
    ensures Sane(EffectOf(s, e).value.process) && Accounted(s, s.procs[e.p], EffectOf(s, e).value)
  {
    var q := s.procs[e.p];
    match e
    case Enter(_, dir, count) => EnterSane(s, q, dir, count);
    case Proceed(_) => ProceedSane(s, q);
    case FailOpen(_) => FrameLocksConcat(q.frames, Frame(q.marker, None));
    case Leave(_) => LeaveSane(s, q);
    case _ =>
  }

  /** Every file locked after the effect is in the hands of the process the table names. */
  lemma OwnersStillHold(s: State, p: Pid, f: Effect)
    requires Agreement(s) && p in s.procs && Accounted(s, s.procs[p], f)
    ensures OwnersHold(Apply(s, p, f))
  {
    var t := Apply(s, p, f);
    forall file | file in t.owner ensures t.owner[file] in t.procs && file in Holds(t.procs[t.owner[file]]) {
      if file !in f.taken {
        assert file in s.owner && file !in f.released;
        assert s.owner[file] in s.procs && file in Holds(s.procs[s.owner[file]]);
      }
    }
  }

  /** Every file in a process's hands after the effect is the table's, under its name. */
  lemma HoldersStillOwn(s: State, p: Pid, f: Effect)
    requires HoldersOwn(s) && p in s.procs && Accounted(s, s.procs[p], f)
    ensures HoldersOwn(Apply(s, p, f))
  {
    var t := Apply(s, p, f);
    forall r, file | r in t.procs && file in Holds(t.procs[r]) ensures file in t.owner && t.owner[file] == r {
      HolderStillOwns(s, p, f, r, file);
    }
  }

  lemma HolderStillOwns(s: State, p: Pid, f: Effect, r: Pid, file: LockFile)
    requires HoldersOwn(s) && p in s.procs && Accounted(s, s.procs[p], f)
    requires if r == p then file in Holds(f.process) else r in s.procs && file in Holds(s.procs[r])
    ensures file in Relock(s.owner, p, f) && Relock(s.owner, p, f)[file] == r
  {
    if r != p {
      assert s.owner[file] == r;
      assert file !in f.released && file !in f.taken;
    } else if file !in f.taken {
      assert file in Holds(s.procs[p]) && file !in f.released;
    }
  }

  lemma AgreementKept(s: State, p: Pid, f: Effect)
    requires Agreement(s) && p in s.procs && Accounted(s, s.procs[p], f)
    ensures Agreement(Apply(s, p, f))
  {
    OwnersStillHold(s, p, f);
    HoldersStillOwn(s, p, f);
  }

  /** The slots a process newly locks, and the counts it goes on with, are within the bounds. */
  lemma EffectCounted(s: State, e: Event)
    requires !e.Begin? && EffectOf(s, e).Some? && Sane(s.procs[e.p]) && Counted(s.procs[e.p], s.largest)
    ensures Counted(EffectOf(s, e).value.process, Prepared(s, e).largest)
  {
    var q, f := s.procs[e.p], EffectOf(s, e).value;
    EffectSane(s, e);
    forall file | file in Holds(f.process) && file.Slot?
      ensures file.dir in s.largest && file.index < s.largest[file.dir]
    {
      if file in f.taken {
        assert q.pc.Trying? || q.pc.Polling?;
      } else {
        assert file in Holds(q);
      }
    }
  }

  lemma WiderStillCounted(q: Process, a: map<string, nat>, b: map<string, nat>)
    requires Counted(q, a) && forall dir :: dir in a ==> dir in b && a[dir] <= b[dir]
    ensures Counted(q, b)
  {
  }

  lemma SameBases(s: State, p: Pid, f: Effect, r: Pid, q: Process)
    requires p in s.procs && f.process.base == s.procs[p].base && Sound(s, r, q)
    ensures Sound(Apply(s, p, f), r, q)
  {
  }

  lemma ApplyKeeps(s: State, p: Pid, f: Effect)
    requires Inv(s) && p in s.procs && Accounted(s, s.procs[p], f) && Sound(s, p, f.process)
    ensures Inv(Apply(s, p, f))
  {
    AgreementKept(s, p, f);
    forall r | r in Apply(s, p, f).procs ensures Sound(Apply(s, p, f), r, Apply(s, p, f).procs[r]) {
      SameBases(s, p, f, r, Apply(s, p, f).procs[r]);
    }
  }

  lemma BirthSound(s: State, marker: Option<string>, r: Pid, q: Process)
    requires Inv(s) && Sound(s, r, q)
    ensures Sound(WithBirth(s, marker), r, q)
  {
    if q.pc.Waiting? {
      assert Sound(s, q.pc.child, s.procs[q.pc.child]);
    }
  }

  lemma BirthAgrees(s: State, marker: Option<string>)
    requires Agreement(s) && s.next !in s.procs
    ensures Agreement(WithBirth(s, marker))
  {
    assert Holds(Born(marker)) == {};
  }

  lemma NextIsFree(s: State)
    requires Inv(s)
    ensures s.next !in s.procs
  {
    assert s.next in s.procs ==> Sound(s, s.next, s.procs[s.next]);
  }

  lemma BirthKeeps(s: State, marker: Option<string>)
    requires Inv(s)
    ensures Inv(WithBirth(s, marker))
  {
    var t := WithBirth(s, marker);
    NextIsFree(s);
    BirthAgrees(s, marker);
    assert Holds(Born(marker)) == {};
    forall r | r in t.procs ensures Sound(t, r, t.procs[r]) {
      if r != s.next {
        BirthSound(s, marker, r, s.procs[r]);
      }
    }
  }

  lemma WidenKeeps(s: State, dir: string, count: nat)
    requires Inv(s)
    ensures Inv(s.(largest := Widen(s.largest, dir, count)))
  {
    var t := s.(largest := Widen(s.largest, dir, count));
    forall r | r in t.procs ensures Sound(t, r, t.procs[r]) {
      WiderStillCounted(s.procs[r], s.largest, t.largest);
    }
  }

  lemma PreparedKeeps(s: State, e: Event)
    requires Inv(s)
    ensures Inv(Prepared(s, e))
  {
    match e
    case Begin(marker) => BirthKeeps(s, marker);
    case Spawn(p, _) => if p in s.procs { BirthKeeps(s, s.procs[p].marker); }
    case Enter(_, dir, count) => if count > 0 { WidenKeeps(s, dir, count); }
    case _ =>
  }

  lemma OnlySpawnWaits(s: State, e: Event)
    requires !e.Begin? && EffectOf(s, e).Some? && EffectOf(s, e).value.process.pc.Waiting?
    ensures e.Spawn? && EffectOf(s, e).value.process == s.procs[e.p].(pc := Waiting(s.next))
  {
  }

  /** A process that starts to wait for a child has just spawned it. */
  lemma EffectLineage(s: State, e: Event)
    requires Inv(s) && !e.Begin? && EffectOf(s, e).Some?
    ensures Lineage(Prepared(s, e).procs, e.p, EffectOf(s, e).value.process)
  {
    assert Sound(s, e.p, s.procs[e.p]);
    if EffectOf(s, e).value.process.pc.Waiting? {
      OnlySpawnWaits(s, e);
      assert Prepared(s, e).procs[s.next] == Born(s.procs[e.p].marker);
    }
  }

  lemma PreparedSame(s: State, e: Event)
    requires Inv(s) && !e.Begin? && e.p in s.procs
    ensures var t := Prepared(s, e);
            e.p in t.procs && t.procs[e.p] == s.procs[e.p] && t.owner == s.owner && s.next <= t.next
  {
    NextIsFree(s);
  }

  /** Every step keeps the invariant. */
  lemma StepKeeps(s: State, e: Event)
    requires Inv(s) && Do(s, e).Some?
    ensures Inv(Do(s, e).value)
  {
    PreparedKeeps(s, e);
    if !e.Begin? {
      assert Sound(s, e.p, s.procs[e.p]);
      PreparedSame(s, e);
      EffectSane(s, e);
      EffectCounted(s, e);
      EffectLineage(s, e);
      ApplyKeeps(Prepared(s, e), e.p, EffectOf(s, e).value);
    }
  }

  // --------------------------------------------------------- whole runs

  ghost predicate StepAt(run: seq<State>, k: nat)
    requires k + 1 < |run|
  {
    exists e :: Do(run[k], e) == Some(run[k + 1])
  }

  ghost predicate IsRun(run: seq<State>)
  {
    run != [] && run[0] == Initial && forall k :: 0 <= k < |run| - 1 ==> StepAt(run, k)
  }

  lemma {:induction false} RunKeeps(run: seq<State>, k: nat)
    requires IsRun(run) && k < |run|
    ensures Inv(run[k])
  {
    if k > 0 {
      RunKeeps(run, k - 1);
      assert StepAt(run, k - 1);
      var e :| Do(run[k - 1], e) == Some(run[k]);
      StepKeeps(run[k - 1], e);
    }
  }

  ghost predicate HoldsSlotIn(q: Process, dir: string) { exists i: nat :: Slot(dir, i) in Holds(q) }

  ghost function SlotHolders(s: State, dir: string): set<Pid>
  {
    set p | p in s.procs && HoldsSlotIn(s.procs[p], dir)
  }

  ghost predicate InsideTurnstile(q: Process, dir: string)
  {
    (q.pc.Polling? && q.pc.dir == dir) || (q.pc.Claimed? && q.pc.inside && q.pc.dir == dir)
  }

  lemma SaneLocks(q: Process)
    requires Sane(q)
    ensures forall file :: file in FrameLocks(q.frames) ==> q.frames[0].handle == Some(file) && file.Slot?
  {
    forall file | file in FrameLocks(q.frames) ensures q.frames[0].handle == Some(file) && file.Slot? {
      var f :| f in q.frames && f.handle == Some(file);
      var k :| 0 <= k < |q.frames| && q.frames[k] == f;
    }
  }

  lemma OneSlot(q: Process, a: LockFile, b: LockFile)
    requires Sane(q) && a in Holds(q) && b in Holds(q) && a.Slot? && b.Slot?
    ensures a == b
  {
    SaneLocks(q);
  }

  /** Processes that each own one of the first n slots of a directory are at most n. */
  lemma {:induction false} AtMost(owner: map<LockFile, Pid>, dir: string, n: nat, ps: set<Pid>)
    requires forall p :: p in ps ==> exists i: nat :: i < n && Slot(dir, i) in owner && owner[Slot(dir, i)] == p
    ensures |ps| <= n
  {
    if n == 0 {
      assert ps == {};
    } else {
      var last := Slot(dir, n - 1);
      var rest := if last in owner then ps - {owner[last]} else ps;
      forall p | p in rest ensures exists i: nat :: i < n - 1 && Slot(dir, i) in owner && owner[Slot(dir, i)] == p {
        var i: nat :| i < n && Slot(dir, i) in owner && owner[Slot(dir, i)] == p;
        assert i < n - 1;
      }
      AtMost(owner, dir, n - 1, rest);
      assert last in owner ==> ps <= rest + {owner[last]};
    }
  }

  lemma HolderOwnsSlot(s: State, dir: string, n: nat, p: Pid)
    requires HoldersOwn(s) && p in SlotHolders(s, dir) && Counted(s.procs[p], s.largest)
    requires n == if dir in s.largest then s.largest[dir] else 0
    ensures exists i: nat :: i < n && Slot(dir, i) in s.owner && s.owner[Slot(dir, i)] == p
  {
    var i: nat :| Slot(dir, i) in Holds(s.procs[p]);
    assert i < n && Slot(dir, i) in s.owner && s.owner[Slot(dir, i)] == p;
  }

  lemma HoldersCounted(s: State, dir: string)
    requires Inv(s)
    ensures |SlotHolders(s, dir)| <= if dir in s.largest then s.largest[dir] else 0
  {
    var n := if dir in s.largest then s.largest[dir] else 0;
    forall p | p in SlotHolders(s, dir) ensures exists i: nat :: i < n && Slot(dir, i) in s.owner && s.owner[Slot(dir, i)] == p {
      assert Sound(s, p, s.procs[p]);
      HolderOwnsSlot(s, dir, n, p);
    }
    AtMost(s.owner, dir, n, SlotHolders(s, dir));
  }

  ghost predicate NoSharedLock(s: State)
  {
    forall p, q :: p in s.procs && q in s.procs && p != q ==> Holds(s.procs[p]) !! Holds(s.procs[q])
  }

  ghost predicate OneSlotEach(s: State)
  {
    forall p, a, b ::
      p in s.procs && a in Holds(s.procs[p]) && b in Holds(s.procs[p]) && a.Slot? && b.Slot? ==> a == b
  }

  ghost predicate OneInsideEach(s: State)
  {
    forall p, q, dir ::
      (p in s.procs && q in s.procs && InsideTurnstile(s.procs[p], dir) && InsideTurnstile(s.procs[q], dir)) ==> p == q
  }

  ghost predicate HoldersBounded(s: State)
  {
    forall dir :: |SlotHolders(s, dir)| <= if dir in s.largest then s.largest[dir] else 0
  }

  lemma Unshared(s: State)
    requires Agreement(s)
    ensures NoSharedLock(s) && OneInsideEach(s)
  {
    forall p, q | p in s.procs && q in s.procs && p != q ensures Holds(s.procs[p]) !! Holds(s.procs[q]) {
      assert forall file :: file in Holds(s.procs[p]) ==> s.owner[file] == p;
    }
    forall p, q, dir | p in s.procs && q in s.procs && InsideTurnstile(s.procs[p], dir) && InsideTurnstile(s.procs[q], dir) ensures p == q {
      assert Turnstile(dir) in AcquiringLocks(s.procs[p].pc) && Turnstile(dir) in AcquiringLocks(s.procs[q].pc);
      assert Turnstile(dir) in Holds(s.procs[p]) && Turnstile(dir) in Holds(s.procs[q]);
    }
  }

  lemma OneSlotOnly(s: State)
    requires Inv(s)
    ensures OneSlotEach(s)
  {
    forall p, a, b | p in s.procs && a in Holds(s.procs[p]) && b in Holds(s.procs[p]) && a.Slot? && b.Slot? ensures a == b {
      assert Sound(s, p, s.procs[p]);
      OneSlot(s.procs[p], a, b);
    }
  }

  /**
   * Safety of every run: no lock file is held twice, no process holds two slots, one process at
   * most is past the turnstile of a directory, and the slot holders of a directory never
   * outnumber the largest slot count used there.
   */
  lemma MutualExclusion(run: seq<State>, k: nat)
    requires IsRun(run) && k < |run|
    ensures NoSharedLock(run[k]) && OneSlotEach(run[k]) && OneInsideEach(run[k]) && HoldersBounded(run[k])
  {
    RunKeeps(run, k);
    Unshared(run[k]);
    OneSlotOnly(run[k]);
    forall dir ensures |SlotHolders(run[k], dir)| <= if dir in run[k].largest then run[k].largest[dir] else 0 {
      HoldersCounted(run[k], dir);
    }
  }

  // ------------------------------------------------------- no wait cycle

  ghost predicate Polled(s: State, q: Process) { q.pc.Polling? && forall i :: 0 <= i < q.pc.count ==> Slot(q.pc.dir, i) in s.owner }

  /** Process p cannot go on before process r does something. */
  ghost predicate WaitsFor(s: State, p: Pid, r: Pid)
  {
    && p in s.procs && r in s.procs
    && var q := s.procs[p];
       || (q.pc.Queueing? && Turnstile(q.pc.dir) in s.owner && s.owner[Turnstile(q.pc.dir)] == r)
       || (Polled(s, q) && exists i :: 0 <= i < q.pc.count && s.owner[Slot(q.pc.dir, i)] == r)
       || (q.pc.Waiting? && q.pc.child == r && !s.procs[r].pc.Dead?)
  }

  /** How far along the order turnstile, slot, child a process stands. */
  ghost function Rank(q: Process): nat
  {
    if Truthy(q.marker) || q.pc.Claimed? then 3
    else if q.pc.Polling? then 2
    else if q.pc.Queueing? then 1
    else 0
  }

  /** Whoever holds a slot, or was born under one, waits neither for a slot nor for the turnstile. */
  lemma HolderNeverWaits(run: seq<State>, k: nat, p: Pid)
    requires IsRun(run) && k < |run| && p in run[k].procs
    ensures var q := run[k].procs[p];
            FrameLocks(q.frames) != {} || Truthy(q.base) || Truthy(q.marker) ==> !Acquiring(q.pc)
  {
    RunKeeps(run, k);
    assert Sound(run[k], p, run[k].procs[p]);
    SaneLocks(run[k].procs[p]);
  }

  lemma BaseFixed(s: State, e: Event, p: Pid)
    requires Inv(s) && Do(s, e).Some? && p in s.procs
    ensures p in Do(s, e).value.procs && Do(s, e).value.procs[p].base == s.procs[p].base
  {
    assert Sound(s, p, s.procs[p]);
    if !e.Begin? && p == e.p {
      EffectSane(s, e);
    }
  }

  /** A process born under a held slot never waits on the lock files, for the rest of its life. */
  lemma {:induction false} ShelteredForLife(run: seq<State>, i: nat, j: nat, p: Pid)
    requires IsRun(run) && i <= j < |run| && p in run[i].procs && Truthy(run[i].procs[p].base)
    ensures p in run[j].procs && Truthy(run[j].procs[p].base) && !Acquiring(run[j].procs[p].pc)
    decreases j - i
  {
    if i < j {
      ShelteredForLife(run, i, j - 1, p);
      RunKeeps(run, j - 1);
      assert StepAt(run, j - 1);
      var e :| Do(run[j - 1], e) == Some(run[j]);
      BaseFixed(run[j - 1], e, p);
    }
    HolderNeverWaits(run, j, p);
  }

  /** A child spawned under a held slot is born with the marker, and so are its own children in turn. */
  lemma ChildrenOfHolders(run: seq<State>, k: nat, p: Pid, wait: bool)
    requires IsRun(run) && k < |run| && p in run[k].procs
    requires run[k].procs[p].frames != [] || Truthy(run[k].procs[p].base)
    requires Do(run[k], Spawn(p, wait)).Some?
    ensures var t := Do(run[k], Spawn(p, wait)).value;
            run[k].next in t.procs && Truthy(t.procs[run[k].next].base)
  {
    RunKeeps(run, k);
    assert Sound(run[k], p, run[k].procs[p]);
  }

  ghost predicate Climbs(s: State, p: Pid, r: Pid)
    requires p in s.procs && r in s.procs
  {
    Rank(s.procs[p]) < Rank(s.procs[r]) || (Rank(s.procs[p]) == Rank(s.procs[r]) && p < r)
  }

  /** Whoever holds the turnstile polls, or has its slot already. */
  lemma TurnstileHolder(q: Process, dir: string)
    requires Sane(q) && Turnstile(dir) in Holds(q)
    ensures q.pc.Polling? || q.pc.Claimed?
  {
    SaneLocks(q);
  }

  /** Whoever holds a slot has just claimed it, or runs under the marker. */
  lemma SlotHolder(q: Process, dir: string, i: nat)
    requires Sane(q) && Slot(dir, i) in Holds(q)
    ensures q.pc.Claimed? || Truthy(q.marker)
  {
    SaneLocks(q);
  }

  lemma EdgeClimbs(s: State, p: Pid, r: Pid)
    requires Inv(s) && WaitsFor(s, p, r)
    ensures Climbs(s, p, r) && !s.procs[r].pc.Dead?
  {
    var q := s.procs[p];
    assert Sound(s, p, q) && Sound(s, r, s.procs[r]);
    if q.pc.Queueing? {
      TurnstileHolder(s.procs[r], q.pc.dir);
    } else if q.pc.Polling? {
      var i :| 0 <= i < q.pc.count && s.owner[Slot(q.pc.dir, i)] == r;
      SlotHolder(s.procs[r], q.pc.dir, i);
      AliveHolder(s, r, Slot(q.pc.dir, i));
    }
  }

  /** The dead hold nothing. */
  lemma AliveHolder(s: State, r: Pid, file: LockFile)
    requires r in s.procs && Sane(s.procs[r]) && file in Holds(s.procs[r])
    ensures !s.procs[r].pc.Dead?
  {
    SaneLocks(s.procs[r]);
  }

  ghost predicate WaitPath(s: State, path: seq<Pid>)
  {
    path != [] && forall k :: 0 <= k < |path| - 1 ==> WaitsAt(s, path, k)
  }

  ghost predicate WaitsAt(s: State, path: seq<Pid>, k: nat)
    requires k + 1 < |path|
  {
    WaitsFor(s, path[k], path[k + 1])
  }

  lemma {:induction false} PathClimbs(s: State, path: seq<Pid>, k: nat)
    requires Inv(s) && WaitPath(s, path) && 0 < k < |path|
    ensures path[0] in s.procs && path[k] in s.procs && Climbs(s, path[0], path[k])
  {
    assert WaitsAt(s, path, k - 1);
    EdgeClimbs(s, path[k - 1], path[k]);
    if k > 1 {
      PathClimbs(s, path, k - 1);
    }
  }

  /** No process ever waits, directly or through others, for itself. */
  lemma NoWaitCycle(run: seq<State>, k: nat, path: seq<Pid>)
    requires IsRun(run) && k < |run| && WaitPath(run[k], path) && |path| > 1
    ensures path[0] != path[|path| - 1]
  {
    RunKeeps(run, k);
    PathClimbs(run[k], path, |path| - 1);
  }

  /** A live process that nothing keeps from going on. */
  ghost predicate Unblocked(s: State, p: Pid)
  {
    p in s.procs && !s.procs[p].pc.Dead? && forall r :: !WaitsFor(s, p, r)
  }

  lemma PathGrows(s: State, p: Pid, rest: seq<Pid>)
    requires WaitPath(s, rest) && WaitsFor(s, p, rest[0])
    ensures WaitPath(s, [p] + rest)
  {
    var path := [p] + rest;
    forall k | 0 <= k < |path| - 1 ensures WaitsAt(s, path, k) {
      assert k > 0 ==> WaitsAt(s, rest, k - 1);
    }
  }

  lemma {:induction false} FollowWaits(s: State, p: Pid) returns (path: seq<Pid>)
    requires Inv(s) && p in s.procs && !s.procs[p].pc.Dead?
    ensures WaitPath(s, path) && path[0] == p && Unblocked(s, path[|path| - 1])
    decreases 3 - Rank(s.procs[p]), s.next - p
  {
    if r :| WaitsFor(s, p, r) {
      assert Sound(s, r, s.procs[r]);
      EdgeClimbs(s, p, r);
      var rest := FollowWaits(s, r);
      PathGrows(s, p, rest);
      path := [p] + rest;
    } else {
      path := [p];
    }
  }

  /** Deadlock freedom: every chain of waits ends at a live process that nothing blocks. */
  lemma NoDeadlock(run: seq<State>, k: nat, p: Pid) returns (path: seq<Pid>)
    requires IsRun(run) && k < |run| && p in run[k].procs && !run[k].procs[p].pc.Dead?
    ensures WaitPath(run[k], path) && path[0] == p && Unblocked(run[k], path[|path| - 1])
  {
    RunKeeps(run, k);
    path := FollowWaits(run[k], p);
  }

  /** Whoever has no next step, or no slot to find, waits for somebody. */
  lemma BlockedWaits(s: State, p: Pid) returns (r: Pid)
    requires Agreement(s) && p in s.procs && Counted(s.procs[p], s.largest) && Lineage(s.procs, p, s.procs[p])
    requires ((Acquiring(s.procs[p].pc) || s.procs[p].pc.Waiting?) && ProceedEffect(s, s.procs[p]).None?) || Polled(s, s.procs[p])
    ensures WaitsFor(s, p, r)
  {
    var pc := s.procs[p].pc;
    if pc.Queueing? {
      r := s.owner[Turnstile(pc.dir)];
    } else if pc.Polling? {
      r := s.owner[Slot(pc.dir, 0)];
    } else {
      r := pc.child;
    }
  }

  /** Whoever nothing keeps from going on has a next step, and if it polls, a slot to find. */
  lemma UnblockedCanGoOn(run: seq<State>, k: nat, p: Pid)
    requires IsRun(run) && k < |run| && Unblocked(run[k], p)
    requires Acquiring(run[k].procs[p].pc) || run[k].procs[p].pc.Waiting?
    ensures Do(run[k], Proceed(p)).Some? && !Polled(run[k], run[k].procs[p])
  {
    RunKeeps(run, k);
    assert Sound(run[k], p, run[k].procs[p]);
    if ProceedEffect(run[k], run[k].procs[p]).None? || Polled(run[k], run[k].procs[p]) {
      var r := BlockedWaits(run[k], p);
    }
  }

  // ------------------------------------------------- what entering comes to

  /** The process is in its outermost block, with a slot below the count that the kernel gives to it. */
  ghost predicate GotSlot(s: State, p: Pid, dir: string, count: nat)
    requires p in s.procs
  {
    && |s.procs[p].frames| == 1
    && match s.procs[p].frames[0].handle
       case Some(Slot(d, i)) => d == dir && i < count && Slot(dir, i) in s.owner && s.owner[Slot(dir, i)] == p
       case _ => false
  }

  lemma ProceedEnters(s: State, q: Process)
    requires q.frames == [] && ProceedEffect(s, q).Some? && ProceedEffect(s, q).value.process.frames != []
    ensures q.pc.Claimed? && ProceedEffect(s, q).value.process.frames == [Frame(q.marker, Some(Slot(q.pc.dir, q.pc.index)))]
  {
  }

  lemma HeldIsOwned(s: State, p: Pid, file: LockFile)
    requires HoldersOwn(s) && p in s.procs && |s.procs[p].frames| == 1 && s.procs[p].frames[0].handle == Some(file)
    ensures file in s.owner && s.owner[file] == p
  {
    assert file in Holds(s.procs[p]);
  }

  lemma SlotEntered(s: State, p: Pid)
    requires Inv(s) && Do(s, Proceed(p)).Some? && p in s.procs && s.procs[p].frames == []
    requires Do(s, Proceed(p)).value.procs[p].frames != []
    ensures Acquiring(s.procs[p].pc) && GotSlot(Do(s, Proceed(p)).value, p, s.procs[p].pc.dir, s.procs[p].pc.count)
  {
    var q := s.procs[p];
    assert Sound(s, p, q);
    ProceedEnters(s, q);
    StepKeeps(s, Proceed(p));
    HeldIsOwned(Do(s, Proceed(p)).value, p, Slot(q.pc.dir, q.pc.index));
  }

  /**
   * In every run a process without the marker gets into a block in three ways only: the
   * filesystem refused, locking is disabled, or it was acquiring and now has a slot.
   */
  lemma EntersWithSlot(run: seq<State>, k: nat, e: Event, p: Pid)
    requires IsRun(run) && k + 1 < |run| && Do(run[k], e) == Some(run[k + 1])
    requires p in run[k].procs && p in run[k + 1].procs && !Truthy(run[k].procs[p].marker)
    requires run[k].procs[p].frames == [] && run[k + 1].procs[p].frames != []
    ensures || e == FailOpen(p)
            || (e.Enter? && e.p == p && e.count <= 0)
            || (e == Proceed(p) && Acquiring(run[k].procs[p].pc)
                && GotSlot(run[k + 1], p, run[k].procs[p].pc.dir, run[k].procs[p].pc.count))
  {
    RunKeeps(run, k);
    if e.Begin? || e.p != p {
      OthersSame(run[k], e, p);
    } else if e.Proceed? {
      SlotEntered(run[k], p);
    }
  }

  /** Entering under the marker changes nothing else; entering without it starts an acquisition unless locking is disabled. */
  lemma EnterStarts(s: State, p: Pid, dir: string, count: int)
    requires p in s.procs && s.procs[p].pc.Running?
    ensures Do(s, Enter(p, dir, count)).Some?
    ensures var q, t := s.procs[p], Do(s, Enter(p, dir, count)).value;
            && t.owner == s.owner && t.procs.Keys == s.procs.Keys
            && if Truthy(q.marker) || count <= 0
               then t.procs[p].pc.Running? && t.procs[p].frames == q.frames + [Frame(q.marker, None)]
                    && t.procs[p].marker == if Truthy(q.marker) then q.marker else Some("1")
               else && Acquiring(t.procs[p].pc) && t.procs[p].pc.dir == dir && t.procs[p].pc.count == count
                    && t.procs[p].frames == q.frames && t.procs[p].marker == q.marker
  {
  }

  /** n steps in a row. */
  ghost function Iterate(step: State -> Option<State>, s: State, n: nat): Option<State>
    decreases n
  {
    if n == 0 then Some(s)
    else if step(s).None? then None
    else Iterate(step, step(s).value, n - 1)
  }

  ghost function Proceeding(p: Pid): State -> Option<State> { (s: State) => Do(s, Proceed(p)) }

  lemma IterateOne(step: State -> Option<State>, s: State)
    ensures Iterate(step, s, 1) == step(s)
  {
    if step(s).Some? {
      assert Iterate(step, step(s).value, 0) == Some(step(s).value);
    }
  }

  lemma {:induction false} IterateThen(step: State -> Option<State>, s: State, a: nat, t: State, b: nat)
    requires Iterate(step, s, a) == Some(t)
    ensures Iterate(step, s, a + b) == Iterate(step, t, b)
    decreases a
  {
    if a > 0 {
      IterateThen(step, step(s).value, a - 1, t, b);
    }
  }

  /** Slot j is the first free one from slot i on. */
  ghost predicate FirstFree(s: State, dir: string, i: nat, j: nat)
  {
    i <= j && Slot(dir, j) !in s.owner && forall m :: i <= m < j ==> Slot(dir, m) in s.owner
  }

  ghost predicate Looking(s: State, p: Pid, dir: string, count: nat, i: nat)
  {
    p in s.procs && s.procs[p].pc in {Trying(dir, count, i), Polling(dir, count, i)}
  }

  ghost function WithPc(s: State, p: Pid, pc: Pc): State
    requires p in s.procs
  {
    s.(procs := s.procs[p := s.procs[p].(pc := pc)])
  }

  lemma NothingDropped(s: State, p: Pid, q: Process)
    ensures Apply(s, p, Effect(q, {}, {})) == s.(procs := s.procs[p := q])
  {
    assert Relock(s.owner, p, Effect(q, {}, {})) == s.owner;
  }

  lemma BusyStep(s: State, p: Pid, dir: string, count: nat, i: nat)
    requires Looking(s, p, dir, count, i) && i < count && Slot(dir, i) in s.owner
    ensures Do(s, Proceed(p))
         == Some(WithPc(s, p, if s.procs[p].pc.Trying? then Trying(dir, count, i + 1) else Polling(dir, count, i + 1)))
  {
    NothingDropped(s, p, ProceedEffect(s, s.procs[p]).value.process);
  }

  lemma FreeStep(s: State, p: Pid, dir: string, count: nat, i: nat)
    requires Looking(s, p, dir, count, i) && i < count && Slot(dir, i) !in s.owner
    ensures Do(s, Proceed(p))
         == Some(WithPc(s, p, Claimed(dir, count, i, s.procs[p].pc.Polling?)).(owner := s.owner[Slot(dir, i) := p]))
  {
    assert Relock(s.owner, p, ProceedEffect(s, s.procs[p]).value) == s.owner[Slot(dir, i) := p];
  }

  /** In the first pass and in the poll alike, a process left alone takes the first free slot. */
  lemma {:induction false} ClaimsFirstFree(s: State, p: Pid, dir: string, count: nat, i: nat, j: nat)
    requires Looking(s, p, dir, count, i) && FirstFree(s, dir, i, j) && j < count
    ensures Iterate(Proceeding(p), s, j - i + 1)
         == Some(WithPc(s, p, Claimed(dir, count, j, s.procs[p].pc.Polling?)).(owner := s.owner[Slot(dir, j) := p]))
    decreases j - i
  {
    if i == j {
      FreeStep(s, p, dir, count, i);
      IterateOne(Proceeding(p), s);
    } else {
      BusyStep(s, p, dir, count, i);
      var t := Do(s, Proceed(p)).value;
      ClaimsFirstFree(t, p, dir, count, i + 1, j);
      assert WithPc(t, p, Claimed(dir, count, j, s.procs[p].pc.Polling?)) == WithPc(s, p, Claimed(dir, count, j, s.procs[p].pc.Polling?));
    }
  }

  /** With every slot busy, the first pass ends in the queue and the poll starts over, with nothing taken. */
  lemma {:induction false} FindsNone(s: State, p: Pid, dir: string, count: nat, i: nat)
    requires Looking(s, p, dir, count, i) && i <= count && forall m :: i <= m < count ==> Slot(dir, m) in s.owner
    ensures Iterate(Proceeding(p), s, count - i + 1)
         == Some(WithPc(s, p, if s.procs[p].pc.Trying? then Queueing(dir, count) else Polling(dir, count, 0)))
    decreases count - i
  {
    if i == count {
      NothingDropped(s, p, ProceedEffect(s, s.procs[p]).value.process);
      IterateOne(Proceeding(p), s);
    } else {
      BusyStep(s, p, dir, count, i);
      var t := Do(s, Proceed(p)).value;
      FindsNone(t, p, dir, count, i + 1);
      assert t.procs[p := t.procs[p].(pc := Queueing(dir, count))] == s.procs[p := s.procs[p].(pc := Queueing(dir, count))];
      assert t.procs[p := t.procs[p].(pc := Polling(dir, count, 0))] == s.procs[p := s.procs[p].(pc := Polling(dir, count, 0))];
    }
  }

  lemma AfterStep(step: State -> Option<State>, s: State, t: State, n: nat)
    requires step(s) == Some(t)
    ensures Iterate(step, s, n + 1) == Iterate(step, t, n)
  {
  }

  /** The process is in a block with slot j, and of all lock files only that one has changed hands. */
  ghost predicate Inside(s: State, t: State, p: Pid, dir: string, j: nat)
    requires p in s.procs
  {
    var q := s.procs[p];
    && t.procs == s.procs[p := q.(pc := Running, frames := q.frames + [Frame(q.marker, Some(Slot(dir, j)))], marker := Some("1"))]
    && t.owner == s.owner[Slot(dir, j) := p]
  }

  lemma ClaimedEnters(s: State, p: Pid, dir: string, count: nat, j: nat)
    requires p in s.procs && s.procs[p].pc == Claimed(dir, count, j, false)
    requires Slot(dir, j) in s.owner && s.owner[Slot(dir, j)] == p
    ensures Iterate(Proceeding(p), s, 1).Some? && Inside(s, Iterate(Proceeding(p), s, 1).value, p, dir, j)
  {
    NothingDropped(s, p, ProceedEffect(s, s.procs[p]).value.process);
    IterateOne(Proceeding(p), s);
    assert s.owner == s.owner[Slot(dir, j) := p];
  }

  lemma PassClaims(s: State, t: State, p: Pid, dir: string, count: nat, j: nat) returns (u: State)
    requires p in s.procs && FirstFree(s, dir, 0, j) && j < count
    requires t.owner == s.owner && t.procs == s.procs[p := s.procs[p].(pc := Trying(dir, count, 0))]
    ensures Iterate(Proceeding(p), t, j + 1) == Some(u)
    ensures u.procs == s.procs[p := s.procs[p].(pc := Claimed(dir, count, j, false))] && u.owner == s.owner[Slot(dir, j) := p]
  {
    ClaimsFirstFree(t, p, dir, count, 0, j);
    u := WithPc(t, p, Claimed(dir, count, j, false)).(owner := t.owner[Slot(dir, j) := p]);
  }

  lemma PassAlone(s: State, t: State, p: Pid, dir: string, count: nat, j: nat) returns (v: State)
    requires p in s.procs && FirstFree(s, dir, 0, j) && j < count
    requires t.owner == s.owner && t.procs == s.procs[p := s.procs[p].(pc := Trying(dir, count, 0))]
    ensures Iterate(Proceeding(p), t, j + 2) == Some(v) && Inside(s, v, p, dir, j)
  {
    var u := PassClaims(s, t, p, dir, count, j);
    ClaimedEnters(u, p, dir, count, j);
    v := Iterate(Proceeding(p), u, 1).value;
    IterateJoin(Proceeding(p), t, j + 1, u, 1, v);
    SamePlace(s, u, v, p, dir, j);
  }

  /** Left alone, a process that finds a free slot on its first pass is in the block with the first one, without queueing. */
  lemma EnterAlone(s: State, p: Pid, dir: string, count: nat, j: nat)
    requires p in s.procs && s.procs[p].pc.Running? && !Truthy(s.procs[p].marker)
    requires FirstFree(s, dir, 0, j) && j < count
    ensures Do(s, Enter(p, dir, count)).Some?
    ensures var v := Iterate(Proceeding(p), Do(s, Enter(p, dir, count)).value, j + 2);
            v.Some? && Inside(s, v.value, p, dir, j)
  {
    EnterStep(s, p, dir, count);
    var v := PassAlone(s, Do(s, Enter(p, dir, count)).value, p, dir, count, j);
  }

  lemma EnterStep(s: State, p: Pid, dir: string, count: int)
    requires p in s.procs && s.procs[p].pc.Running? && !Truthy(s.procs[p].marker) && count > 0
    ensures Do(s, Enter(p, dir, count)).Some?
    ensures var t := Do(s, Enter(p, dir, count)).value;
            t.owner == s.owner && t.procs == s.procs[p := s.procs[p].(pc := Trying(dir, count, 0))]
  {
    NothingDropped(Prepared(s, Enter(p, dir, count)), p, s.procs[p].(pc := Trying(dir, count, 0)));
  }

  lemma QueueStep(s: State, p: Pid, dir: string, count: nat)
    requires p in s.procs && s.procs[p].pc == Queueing(dir, count) && Turnstile(dir) !in s.owner
    ensures Do(s, Proceed(p)) == Some(WithPc(s, p, Polling(dir, count, 0)).(owner := s.owner[Turnstile(dir) := p]))
  {
    assert Relock(s.owner, p, ProceedEffect(s, s.procs[p]).value) == s.owner[Turnstile(dir) := p];
  }

  lemma SamePlace(s: State, u: State, v: State, p: Pid, dir: string, j: nat)
    requires p in s.procs && p in u.procs && u.procs == s.procs[p := s.procs[p].(pc := u.procs[p].pc)]
    requires u.owner == s.owner[Slot(dir, j) := p] && Inside(u, v, p, dir, j)
    ensures Inside(s, v, p, dir, j)
  {
  }

  /** Facts about two stretches of steps, joined without looking into the steps. */
  lemma IterateJoin(step: State -> Option<State>, s: State, a: nat, t: State, b: nat, u: State)
    requires Iterate(step, s, a) == Some(t) && Iterate(step, t, b) == Some(u)
    ensures Iterate(step, s, a + b) == Some(u)
  {
    IterateThen(step, s, a, t, b);
  }

  lemma PollClaims(s: State, p: Pid, dir: string, count: nat, j: nat) returns (u: State)
    requires p in s.procs && Turnstile(dir) !in s.owner && FirstFree(s, dir, 0, j) && j < count
    ensures Iterate(Proceeding(p), WithPc(s, p, Polling(dir, count, 0)).(owner := s.owner[Turnstile(dir) := p]), j + 1) == Some(u)
    ensures u.procs == s.procs[p := s.procs[p].(pc := Claimed(dir, count, j, true))]
    ensures u.owner == s.owner[Turnstile(dir) := p][Slot(dir, j) := p]
  {
    var t := WithPc(s, p, Polling(dir, count, 0)).(owner := s.owner[Turnstile(dir) := p]);
    ClaimsFirstFree(t, p, dir, count, 0, j);
    u := WithPc(t, p, Claimed(dir, count, j, true)).(owner := t.owner[Slot(dir, j) := p]);
  }

  lemma PollAlone(s: State, p: Pid, dir: string, count: nat, j: nat) returns (v: State)
    requires p in s.procs && Turnstile(dir) !in s.owner && FirstFree(s, dir, 0, j) && j < count
    ensures Iterate(Proceeding(p), WithPc(s, p, Polling(dir, count, 0)).(owner := s.owner[Turnstile(dir) := p]), j + 3) == Some(v)
    ensures Inside(s, v, p, dir, j)
  {
    var u := PollClaims(s, p, dir, count, j);
    v := TurnstileOpens(s, u, p, dir, count, j);
    IterateJoin(
      Proceeding(p), WithPc(s, p, Polling(dir, count, 0)).(owner := s.owner[Turnstile(dir) := p]), j + 1, u, 2, v);
  }

  /** At the head of the queue, alone, it takes the first free slot too and leaves the turnstile open behind it. */
  lemma QueueAlone(s: State, p: Pid, dir: string, count: nat, j: nat)
    requires p in s.procs && s.procs[p].pc == Queueing(dir, count) && Turnstile(dir) !in s.owner
    requires FirstFree(s, dir, 0, j) && j < count
    ensures var v := Iterate(Proceeding(p), s, j + 4);
            v.Some? && Inside(s, v.value, p, dir, j)
  {
    QueueStep(s, p, dir, count);
    var t := WithPc(s, p, Polling(dir, count, 0)).(owner := s.owner[Turnstile(dir) := p]);
    AfterStep(Proceeding(p), s, t, j + 3);
    var v := PollAlone(s, p, dir, count, j);
  }

  lemma TurnstileOpens(s: State, u: State, p: Pid, dir: string, count: nat, j: nat) returns (w: State)
    requires p in s.procs && Turnstile(dir) !in s.owner
    requires u.procs == s.procs[p := s.procs[p].(pc := Claimed(dir, count, j, true))]
    requires u.owner == s.owner[Turnstile(dir) := p][Slot(dir, j) := p]
    ensures Iterate(Proceeding(p), u, 2) == Some(w) && Inside(s, w, p, dir, j)
  {
    var v := WithPc(u, p, Claimed(dir, count, j, false)).(owner := s.owner[Slot(dir, j) := p]);
    assert Relock(u.owner, p, ProceedEffect(u, u.procs[p]).value) == s.owner[Slot(dir, j) := p];
    assert Do(u, Proceed(p)) == Some(v);
    AfterStep(Proceeding(p), u, v, 1);
    ClaimedEnters(v, p, dir, count, j);
    w := Iterate(Proceeding(p), v, 1).value;
  }

  // ----------------------------------------------------- what can happen when

  /** The acquisition or the wait can go on: everywhere but at a closed turnstile or before a living child. */
  ghost predicate CanProceed(s: State, pc: Pc)
  {
    || pc.Trying? || pc.Polling? || pc.Claimed?
    || (pc.Queueing? && Turnstile(pc.dir) !in s.owner)
    || (pc.Waiting? && pc.child in s.procs && s.procs[pc.child].pc.Dead?)
  }

  /** When each event can happen to a process: in any state, exactly then. */
  lemma EnabledExactly(s: State, p: Pid, dir: string, count: int, wait: bool)
    requires p in s.procs
    ensures var q := s.procs[p];
            && (Do(s, Enter(p, dir, count)).Some? <==> q.pc.Running?)
            && (Do(s, Leave(p)).Some? <==> q.pc.Running? && q.frames != [])
            && (Do(s, Spawn(p, wait)).Some? <==> q.pc.Running?)
            && (Do(s, Proceed(p)).Some? <==> CanProceed(s, q.pc))
            && (Do(s, Interrupt(p)).Some? <==> Acquiring(q.pc))
            && (Do(s, FailOpen(p)).Some? <==> Acquiring(q.pc) && (q.pc.Claimed? ==> q.pc.inside))
            && (Do(s, Finish(p)).Some? <==> !q.pc.Dead?)
  {
  }

  /** A filesystem error while acquiring lets the process in unlocked: nothing it does can block the command. */
  lemma FailOpenEnters(s: State, p: Pid)
    requires p in s.procs && Acquiring(s.procs[p].pc) && !(s.procs[p].pc.Claimed? && !s.procs[p].pc.inside)
    ensures Do(s, FailOpen(p)).Some?
    ensures var q, t := s.procs[p], Do(s, FailOpen(p)).value;
            && t.procs == s.procs[p := q.(pc := Running, frames := q.frames + [Frame(q.marker, None)], marker := Some("1"))]
            && t.owner == s.owner - AcquiringLocks(q.pc)
  {
  }

  /** An interrupted acquisition leaves the process where it was, without the files it had opened. */
  lemma InterruptUndoes(s: State, p: Pid)
    requires p in s.procs && Acquiring(s.procs[p].pc)
    ensures Do(s, Interrupt(p)).Some?
    ensures var t := Do(s, Interrupt(p)).value;
            t.procs == s.procs[p := s.procs[p].(pc := Running)] && t.owner == s.owner - AcquiringLocks(s.procs[p].pc)
  {
  }

  /** A live process can always end, and then the kernel gives up exactly the files it held. */
  lemma FinishFrees(run: seq<State>, k: nat, p: Pid)
    requires IsRun(run) && k < |run| && p in run[k].procs && !run[k].procs[p].pc.Dead?
    ensures Do(run[k], Finish(p)).Some?
    ensures var s, t := run[k], Do(run[k], Finish(p)).value;
            && t.procs[p].pc.Dead? && Holds(t.procs[p]) == {}
            && (forall r :: r in s.procs && r != p ==> r in t.procs && t.procs[r] == s.procs[r])
            && (forall file :: file in t.owner <==> file in s.owner && s.owner[file] != p)
            && (forall file :: file in t.owner ==> t.owner[file] == s.owner[file])
  {
    RunKeeps(run, k);
    forall file | file in run[k].owner ensures file in Holds(run[k].procs[p]) <==> run[k].owner[file] == p {
      assert run[k].owner[file] in run[k].procs && file in Holds(run[k].procs[run[k].owner[file]]);
    }
  }

  /** Processes can always appear, and running ones can always spawn children that inherit the marker and no lock. */
  lemma BirthsHappen(s: State, marker: Option<string>, p: Pid, wait: bool)
    requires p in s.procs && s.procs[p].pc.Running? && s.next !in s.procs
    ensures Do(s, Begin(marker)).Some? && Do(s, Spawn(p, wait)).Some?
    ensures var t := Do(s, Begin(marker)).value;
            t.procs == s.procs[s.next := Process(Running, marker, [], marker)] && t.owner == s.owner && t.next == s.next + 1
    ensures var q, t := s.procs[p], Do(s, Spawn(p, wait)).value;
            && t.procs == s.procs[s.next := Process(Running, q.marker, [], q.marker)][p := if wait then q.(pc := Waiting(s.next)) else q]
            && t.owner == s.owner && t.next == s.next + 1
  {
    NothingDropped(WithBirth(s, s.procs[p].marker), p, if wait then s.procs[p].(pc := Waiting(s.next)) else s.procs[p]);
  }

  // ------------------------------------------------------ at most n at once

  /** No filesystem error, and every acquisition uses the directory with at least one and at most n slots. */
  ghost predicate Orderly(e: Event, dir: string, n: nat)
  {
    !e.FailOpen? && (e.Enter? ==> e.dir == dir && 0 < e.count <= n)
  }

  ghost predicate OrderlyStep(run: seq<State>, k: nat, dir: string, n: nat)
    requires k + 1 < |run|
  {
    exists e :: Orderly(e, dir, n) && Do(run[k], e) == Some(run[k + 1])
  }

  ghost predicate OrderlyRun(run: seq<State>, dir: string, n: nat)
  {
    IsRun(run) && forall k :: 0 <= k < |run| - 1 ==> OrderlyStep(run, k, dir, n)
  }

  /** In a block of its own accord: not because it was started by somebody in one. */
  ghost predicate OnItsOwn(q: Process) { q.frames != [] && !Truthy(q.base) }

  ghost predicate Bounded(s: State, dir: string, n: nat)
  {
    && (forall d :: d in s.largest ==> d == dir && s.largest[d] <= n)
    && forall p :: p in s.procs && OnItsOwn(s.procs[p]) ==> s.procs[p].frames[0].handle.Some?
  }

  lemma EffectBounded(s: State, e: Event, dir: string, n: nat)
    requires !e.Begin? && EffectOf(s, e).Some? && Sane(s.procs[e.p]) && Orderly(e, dir, n)
    requires OnItsOwn(s.procs[e.p]) ==> s.procs[e.p].frames[0].handle.Some?
    ensures var q := EffectOf(s, e).value.process;
            OnItsOwn(q) ==> q.frames[0].handle.Some?
  {
    EffectSane(s, e);
  }

  lemma StepBounded(s: State, e: Event, dir: string, n: nat)
    requires Inv(s) && Bounded(s, dir, n) && Do(s, e).Some? && Orderly(e, dir, n)
    ensures Bounded(Do(s, e).value, dir, n)
  {
    var t := Do(s, e).value;
    forall p | p in t.procs && OnItsOwn(t.procs[p]) ensures t.procs[p].frames[0].handle.Some? {
      if p in s.procs && (e.Begin? || e.p != p) {
        OthersSame(s, e, p);
      } else if p in s.procs {
        assert Sound(s, p, s.procs[p]);
        EffectBounded(s, e, dir, n);
      }
    }
  }

  lemma {:induction false} RunBounded(run: seq<State>, k: nat, dir: string, n: nat)
    requires OrderlyRun(run, dir, n) && k < |run|
    ensures Bounded(run[k], dir, n)
  {
    if k > 0 {
      RunBounded(run, k - 1, dir, n);
      RunKeeps(run, k - 1);
      assert OrderlyStep(run, k - 1, dir, n);
      var e :| Orderly(e, dir, n) && Do(run[k - 1], e) == Some(run[k]);
      StepBounded(run[k - 1], e, dir, n);
    }
  }

  ghost function OnTheirOwn(s: State): set<Pid> { set p | p in s.procs && OnItsOwn(s.procs[p]) }

  lemma NoMore<T>(a: set<T>, b: set<T>)
    requires a <= b
    ensures |a| <= |b|
  {
    assert b == a + (b - a);
  }

  /**
   * What the lock is for: when no filesystem error lets anybody through and locking is on, at
   * most n processes at a time are in a block, not counting those started from within one.
   */
  lemma AtMostNInside(run: seq<State>, k: nat, dir: string, n: nat)
    requires OrderlyRun(run, dir, n) && k < |run|
    ensures |OnTheirOwn(run[k])| <= n
  {
    var s := run[k];
    RunKeeps(run, k);
    RunBounded(run, k, dir, n);
    forall p | p in s.procs && OnItsOwn(s.procs[p]) ensures p in SlotHolders(s, dir) {
      OnItsOwnHolds(s, p, dir, n);
    }
    NoMore(OnTheirOwn(s), SlotHolders(s, dir));
    HoldersCounted(s, dir);
  }

  lemma OnItsOwnHolds(s: State, p: Pid, dir: string, n: nat)
    requires Inv(s) && Bounded(s, dir, n) && p in s.procs && OnItsOwn(s.procs[p])
    ensures p in SlotHolders(s, dir)
  {
    var q := s.procs[p];
    assert Sound(s, p, q);
    var file := q.frames[0].handle.value;
    assert q.frames[0] in q.frames && file in Holds(q) && file.Slot? && file.dir in s.largest;
    assert Slot(dir, file.index) in Holds(q);
  }

  // --------------------------------------------------------------- nesting

  /** From state i to state j of a run, process p stays alive and at least d `held_slot`s deep. */
  ghost predicate Deep(run: seq<State>, i: nat, j: nat, p: Pid, d: nat)
  {
    forall k :: i <= k <= j && k < |run| ==> p in run[k].procs && |run[k].procs[p].frames| >= d
  }

  /** What nesting must not touch: the d outermost frames, the marker and the locks. */
  ghost predicate SameOuter(q: Process, r: Process, d: nat)
  {
    d <= |q.frames| && d <= |r.frames| && r.frames[..d] == q.frames[..d] && r.marker == q.marker && Holds(r) == Holds(q)
  }

  lemma DeepEffect(s: State, e: Event, d: nat)
    requires !e.Begin? && EffectOf(s, e).Some? && Sane(s.procs[e.p])
    requires 1 <= d <= |s.procs[e.p].frames| && d <= |EffectOf(s, e).value.process.frames|
    ensures SameOuter(s.procs[e.p], EffectOf(s, e).value.process, d)
  {
    EffectSane(s, e);
  }

  lemma OthersSame(s: State, e: Event, p: Pid)
    requires Inv(s) && Do(s, e).Some? && p in s.procs && (e.Begin? || e.p != p)
    ensures p in Do(s, e).value.procs && Do(s, e).value.procs[p] == s.procs[p]
  {
    assert Sound(s, p, s.procs[p]);
    assert p != s.next;
  }

  lemma DeepStep(s: State, e: Event, p: Pid, d: nat)
    requires Inv(s) && Do(s, e).Some? && p in s.procs && 1 <= d <= |s.procs[p].frames|
    requires p in Do(s, e).value.procs && d <= |Do(s, e).value.procs[p].frames|
    ensures SameOuter(s.procs[p], Do(s, e).value.procs[p], d)
  {
    if !e.Begin? && e.p == p {
      assert Sound(s, p, s.procs[p]);
      DeepEffect(s, e, d);
    } else {
      OthersSame(s, e, p);
    }
  }

  lemma SameOuterChain(a: Process, b: Process, c: Process, d: nat)
    requires SameOuter(a, b, d) && SameOuter(b, c, d)
    ensures SameOuter(a, c, d)
  {
  }

  lemma RunDeepStep(run: seq<State>, k: nat, p: Pid, d: nat)
    requires IsRun(run) && k + 1 < |run| && d >= 1 && Deep(run, k, k + 1, p, d)
    ensures SameOuter(run[k].procs[p], run[k + 1].procs[p], d)
  {
    RunKeeps(run, k);
    assert StepAt(run, k);
    var e :| Do(run[k], e) == Some(run[k + 1]);
    assert p in run[k].procs && p in run[k + 1].procs;
    DeepStep(run[k], e, p, d);
  }

  /**
   * Any nesting of `held_slot` inside an entered one, however deep and however long, leaves the
   * outer frames, the marker and the locks of the process as they were.
   */
  lemma {:induction false} InnerBlocksChangeNothing(run: seq<State>, i: nat, j: nat, p: Pid, d: nat)
    requires IsRun(run) && i <= j < |run| && d >= 1 && Deep(run, i, j, p, d)
    ensures SameOuter(run[i].procs[p], run[j].procs[p], d)
    decreases j - i
  {
    if i < j {
      assert Deep(run, i, j - 1, p, d);
      InnerBlocksChangeNothing(run, i, j - 1, p, d);
      RunDeepStep(run, j - 1, p, d);
      SameOuterChain(run[i].procs[p], run[j - 1].procs[p], run[j].procs[p], d);
    } else {
      assert run[i].procs[p] == run[j].procs[p];
    }
  }

  /** Leaving the outermost block drops the handle, holds nothing more, and restores the marker's truth. */
  lemma OutermostLeave(run: seq<State>, k: nat, p: Pid)
    requires IsRun(run) && k < |run| && p in run[k].procs && run[k].procs[p].pc.Running? && |run[k].procs[p].frames| == 1
    ensures Do(run[k], Leave(p)).Some?
    ensures var q, t := run[k].procs[p], Do(run[k], Leave(p)).value;
            && Holds(t.procs[p]) == {} && t.procs[p].frames == []
            && (forall file :: file in t.owner <==> file in run[k].owner && q.frames[0].handle != Some(file))
            && (Truthy(t.procs[p].marker) <==> Truthy(q.frames[0].prior))
            && (q.frames[0].handle.Some? ==> q.frames[0].handle.value in run[k].owner && !Truthy(t.procs[p].marker))
  {
    RunKeeps(run, k);
    var s := run[k];
    assert Sound(s, p, s.procs[p]);
    EffectSane(s, Leave(p));
    FrameLocksLast(s.procs[p].frames);
    assert FrameLocks(s.procs[p].frames[..0]) == {};
  }
}
