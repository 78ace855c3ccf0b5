/**
 * The double-checked token cache: any number of threads asking for tokens of any number of
 * service accounts, interleaved step by step, over a clock that never goes back and a token
 * service that may fail.
 */
module TokenCache {
  import opened Text

  const TTL: real := 3300.0

  type Tid = nat

  /** An issued token, tagged with the account it was generated for. */
  datatype Token = Token(account: string, serial: nat)

  datatype Entry = Entry(token: Token, expiry: real)

  datatype Pc =
    | Idle
    | Peek(account: string)                                     // before the unlocked read
    | Peeked(account: string, seen: Option<Entry>)              // before its clock check
    | WantLock(account: string)
    | Recheck(account: string)                                  // lock held, before the second read
    | Rechecked(account: string, seen: Option<Entry>)
    | Calling(account: string)                                  // generation in flight
    | Called(account: string, token: Token)                     // before the clock read of the expiry
    | Stamped(account: string, token: Token, readAt: real)      // before the store
    | Leaving(account: string, token: Token)                    // before the lock is released

  /** What happened and in which thread, in order: the history that the properties speak about. */
  datatype Note =
    | Asked(t: Tid, account: string)                                   // a call begins
    | GenStart(t: Tid, account: string, at: real)
    | GenFailed(t: Tid, account: string)                               // the call ends in an exception
    | Refreshed(t: Tid, account: string, token: Token, readAt: real)
    | Served(t: Tid, account: string, token: Token, at: real)          // a cached token found unexpired
    | Returned(t: Tid, account: string, token: Token)                  // the call ends with its answer

  datatype State = State(
    threads: map<Tid, Pc>,
    cache: map<string, Entry>,
    lock: Option<Tid>,
    now: real,
    log: seq<Note>)

  datatype Event =
    | Tick(elapsed: real)
    | Call(t: Tid, account: string)
    | Run(t: Tid)                          // the thread executes its next step
    | Generated(t: Tid, serial: nat)       // the token service answers
    | Failed(t: Tid)                       // the token service raises

  function PcOf(s: State, t: Tid): Pc { if t in s.threads then s.threads[t] else Idle }

  function Cached(s: State, account: string): Option<Entry>
  {
    if account in s.cache then Some(s.cache[account]) else None
  }

  predicate Fresh(e: Option<Entry>, now: real) { e.Some? && now < e.value.expiry }

  function At(s: State, t: Tid, pc: Pc): State { s.(threads := s.threads[t := pc]) }

  /** One step of the function in thread t; none while it waits. */
  function RunStep(s: State, t: Tid): Option<State>
  {
    match PcOf(s, t)
    case Idle => None
    case Peek(a) => Some(At(s, t, Peeked(a, Cached(s, a))))
    case Peeked(a, e) =>
      if Fresh(e, s.now)
      then Some(At(s, t, Idle).(log := s.log + [Served(t, a, e.value.token, s.now)] + [Returned(t, a, e.value.token)]))
      else Some(At(s, t, WantLock(a)))
    case WantLock(a) => if s.lock.None? then Some(At(s, t, Recheck(a)).(lock := Some(t))) else None
    case Recheck(a) => Some(At(s, t, Rechecked(a, Cached(s, a))))
    case Rechecked(a, e) =>
      if Fresh(e, s.now) then Some(At(s, t, Leaving(a, e.value.token)).(log := s.log + [Served(t, a, e.value.token, s.now)]))
      else Some(At(s, t, Calling(a)).(log := s.log + [GenStart(t, a, s.now)]))
    case Calling(a) => None
    case Called(a, token) => Some(At(s, t, Stamped(a, token, s.now)))
    case Stamped(a, token, readAt) =>
      Some(At(s, t, Leaving(a, token)).(
             cache := s.cache[a := Entry(token, readAt + TTL)],
             log := s.log + [Refreshed(t, a, token, readAt)]))
    case Leaving(a, token) => Some(At(s, t, Idle).(lock := None, log := s.log + [Returned(t, a, token)]))
  }

  function Do(s: State, e: Event): Option<State>
  {
    match e
    case Tick(elapsed) => if elapsed >= 0.0 then Some(s.(now := s.now + elapsed)) else None
    case Call(t, account) => if PcOf(s, t).Idle? then Some(At(s, t, Peek(account)).(log := s.log + [Asked(t, account)])) else None
    case Run(t) => RunStep(s, t)
    case Generated(t, serial) =>
      if PcOf(s, t).Calling? then Some(At(s, t, Called(PcOf(s, t).account, Token(PcOf(s, t).account, serial)))) else None
    case Failed(t) =>
      if PcOf(s, t).Calling?
      then Some(At(s, t, Idle).(lock := None, log := s.log + [GenFailed(t, PcOf(s, t).account)]))
      else None
  }

  function Initial(start: real): State { State(map[], map[], None, start, []) }

  // -------------------------------------------------------- the invariant

  ghost predicate InLock(pc: Pc)
  {
    pc.Recheck? || pc.Rechecked? || pc.Calling? || pc.Called? || pc.Stamped? || pc.Leaving?
  }

  ghost predicate Generating(pc: Pc) { pc.Calling? || pc.Called? || pc.Stamped? }

  /** Every refresh of the account so far has run out by time t. */
  ghost predicate Due(log: seq<Note>, account: string, t: real)
  {
    forall i :: 0 <= i < |log| && log[i].Refreshed? && log[i].account == account ==> log[i].readAt + TTL <= t
  }

  ghost predicate NeverRefreshed(log: seq<Note>, account: string)
  {
    forall i :: 0 <= i < |log| && log[i].Refreshed? ==> log[i].account != account
  }

  ghost predicate IsRefresh(n: Note, account: string, e: Entry)
  {
    n.Refreshed? && n.account == account && n.token == e.token && n.readAt == e.expiry - TTL
  }

  /** The entry was stored by a refresh of that account. */
  ghost predicate Stored(log: seq<Note>, account: string, e: Entry)
  {
    e.token.account == account && exists i :: 0 <= i < |log| && IsRefresh(log[i], account, e)
  }

  ghost predicate CacheOk(s: State, account: string)
  {
    if account in s.cache
    then s.cache[account].expiry <= s.now + TTL && Stored(s.log, account, s.cache[account]) && Due(s.log, account, s.cache[account].expiry)
    else NeverRefreshed(s.log, account)
  }

  ghost predicate ThreadOk(s: State, pc: Pc)
  {
    match pc
    case Peeked(a, e) => e.Some? ==> Stored(s.log, a, e.value)
    case Rechecked(a, e) => e == Cached(s, a)
    case Calling(a) => Due(s.log, a, s.now)
    case Called(a, token) => token.account == a && Due(s.log, a, s.now)
    case Stamped(a, token, readAt) => token.account == a && readAt <= s.now && Due(s.log, a, readAt)
    case Leaving(a, token) => token.account == a && a in s.cache && s.cache[a].token == token
    case _ => true
  }

  ghost predicate Locked(s: State)
  {
    && (s.lock.Some? ==> s.lock.value in s.threads)
    && forall t :: t in s.threads ==> (InLock(s.threads[t]) <==> s.lock == Some(t))
  }

  /** The k-th note against everything noted before it. */
  ghost predicate NoteOk(log: seq<Note>, k: nat)
    requires k < |log|
  {
    match log[k]
    case GenStart(_, a, at) => Due(log[..k], a, at)
    case Refreshed(_, a, token, readAt) => token.account == a && Due(log[..k], a, readAt)
    case Served(_, a, token, at) =>
      token.account == a
      && exists i :: 0 <= i < k && log[i].Refreshed? && log[i].account == a && log[i].token == token && at < log[i].readAt + TTL
    case Returned(_, a, token) => token.account == a
    case _ => true
  }

  ghost predicate LogOk(log: seq<Note>) { forall k :: 0 <= k < |log| ==> NoteOk(log, k) }

  ghost predicate Inv(s: State)
  {
    && Locked(s)
    && (forall a :: CacheOk(s, a))
    && (forall t :: t in s.threads ==> ThreadOk(s, s.threads[t]))
    && LogOk(s.log)
  }

  lemma LogGrows(log: seq<Note>, n: Note)
    requires LogOk(log) && NoteOk(log + [n], |log|)
    ensures LogOk(log + [n])
  {
    forall k | 0 <= k < |log| ensures NoteOk(log + [n], k) {
      assert NoteOk(log, k) && (log + [n])[..k] == log[..k];
    }
  }

  lemma StoredGrows(log: seq<Note>, n: Note, a: string, e: Entry)
    requires Stored(log, a, e)
    ensures Stored(log + [n], a, e)
  {
    var i :| 0 <= i < |log| && IsRefresh(log[i], a, e);
    assert (log + [n])[i] == log[i];
  }

  lemma DueGrows(log: seq<Note>, n: Note, a: string, t: real)
    requires Due(log, a, t) && !(n.Refreshed? && n.account == a)
    ensures Due(log + [n], a, t)
  {
  }

  lemma DueLater(log: seq<Note>, a: string, t: real, later: real)
    requires Due(log, a, t) && t <= later
    ensures Due(log, a, later)
  {
  }

  /** Noting anything but a refresh leaves every account and thread in order. */
  lemma NoteKeeps(s: State, n: Note)
    requires Inv(s) && !n.Refreshed? && NoteOk(s.log + [n], |s.log|)
    ensures Inv(s.(log := s.log + [n]))
  {
    var t := s.(log := s.log + [n]);
    LogGrows(s.log, n);
    forall a ensures CacheOk(t, a) {
      assert CacheOk(s, a);
      if a in s.cache {
        StoredGrows(s.log, n, a, s.cache[a]);
      }
    }
    forall r | r in t.threads ensures ThreadOk(t, t.threads[r]) {
      assert ThreadOk(s, s.threads[r]);
      match s.threads[r]
      case Peeked(a, e) => if e.Some? { StoredGrows(s.log, n, a, e.value); }
      case _ =>
    }
  }

  /** Moving a thread outside the lock, or from one place inside it to another. */
  lemma MoveKeeps(s: State, t: Tid, pc: Pc)
    requires Inv(s) && ThreadOk(s, pc) && (InLock(pc) <==> s.lock == Some(t))
    ensures Inv(At(s, t, pc))
  {
    var u := At(s, t, pc);
    forall a ensures CacheOk(u, a) {
      assert CacheOk(s, a);
    }
    forall r | r in u.threads ensures ThreadOk(u, u.threads[r]) {
      assert r != t ==> ThreadOk(s, s.threads[r]);
    }
  }

  lemma AcquireKeeps(s: State, t: Tid, a: string)
    requires Inv(s) && s.lock.None?
    ensures Inv(At(s, t, Recheck(a)).(lock := Some(t)))
  {
    var u := At(s, t, Recheck(a)).(lock := Some(t));
    forall b ensures CacheOk(u, b) {
      assert CacheOk(s, b);
    }
    forall r | r in u.threads ensures ThreadOk(u, u.threads[r]) {
      assert r != t ==> ThreadOk(s, s.threads[r]);
    }
  }

  lemma ReleaseKeeps(s: State, t: Tid)
    requires Inv(s) && s.lock == Some(t) && t in s.threads
    ensures Inv(At(s, t, Idle).(lock := None))
  {
    var u := At(s, t, Idle).(lock := None);
    forall b ensures CacheOk(u, b) {
      assert CacheOk(s, b);
    }
    forall r | r in u.threads ensures ThreadOk(u, u.threads[r]) {
      assert r != t ==> ThreadOk(s, s.threads[r]);
    }
  }

  lemma TickKeeps(s: State, elapsed: real)
    requires Inv(s) && elapsed >= 0.0
    ensures Inv(s.(now := s.now + elapsed))
  {
    var u := s.(now := s.now + elapsed);
    forall a ensures CacheOk(u, a) {
      assert CacheOk(s, a);
    }
    forall r | r in u.threads ensures ThreadOk(u, u.threads[r]) {
      assert ThreadOk(s, s.threads[r]);
    }
  }

  /** Storing a token: the thread is alone in the lock, so nobody else's view of the entry changes. */
  lemma StoreKeeps(s: State, t: Tid)
    requires Inv(s) && t in s.threads && s.threads[t].Stamped?
    ensures Inv(RunStep(s, t).value)
  {
    var pc, u := s.threads[t], RunStep(s, t).value;
    var n := Refreshed(t, pc.account, pc.token, pc.readAt);
    assert ThreadOk(s, pc) && InLock(pc);
    assert (s.log + [n])[..|s.log|] == s.log;
    LogGrows(s.log, n);
    forall a ensures CacheOk(u, a) {
      assert CacheOk(s, a);
      if a == pc.account {
        assert IsRefresh(u.log[|s.log|], a, u.cache[a]);
      } else if a in s.cache {
        StoredGrows(s.log, n, a, s.cache[a]);
      }
    }
    forall r | r in u.threads ensures ThreadOk(u, u.threads[r]) {
      if r != t {
        assert ThreadOk(s, s.threads[r]) && !InLock(s.threads[r]);
        match s.threads[r]
        case Peeked(a, e) => if e.Some? { StoredGrows(s.log, n, a, e.value); }
        case _ =>
      }
    }
  }

  lemma ServedOk(s: State, t: Tid, a: string, e: Entry)
    requires Stored(s.log, a, e) && s.now < e.expiry
    ensures NoteOk(s.log + [Served(t, a, e.token, s.now)], |s.log|)
  {
    var log := s.log + [Served(t, a, e.token, s.now)];
    var i :| 0 <= i < |s.log| && IsRefresh(s.log[i], a, e);
    assert log[i] == s.log[i];
  }

  lemma StartOk(s: State, t: Tid, a: string)
    requires CacheOk(s, a) && !Fresh(Cached(s, a), s.now)
    ensures Due(s.log, a, s.now) && NoteOk(s.log + [GenStart(t, a, s.now)], |s.log|)
  {
    if a in s.cache {
      DueLater(s.log, a, s.cache[a].expiry, s.now);
    }
    assert (s.log + [GenStart(t, a, s.now)])[..|s.log|] == s.log;
  }

  lemma RecheckedKeeps(s: State, t: Tid)
    requires Inv(s) && t in s.threads && s.threads[t].Rechecked?
    ensures Inv(RunStep(s, t).value)
  {
    var pc := s.threads[t];
    var a, e := pc.account, pc.seen;
    assert ThreadOk(s, pc) && InLock(pc) && CacheOk(s, a);
    if Fresh(e, s.now) {
      ServedOk(s, t, a, e.value);
      NoteKeeps(s, Served(t, a, e.value.token, s.now));
      MoveKeeps(s.(log := s.log + [Served(t, a, e.value.token, s.now)]), t, Leaving(a, e.value.token));
    } else {
      StartOk(s, t, a);
      NoteKeeps(s, GenStart(t, a, s.now));
      DueGrows(s.log, GenStart(t, a, s.now), a, s.now);
      MoveKeeps(s.(log := s.log + [GenStart(t, a, s.now)]), t, Calling(a));
    }
  }

  lemma PeekedKeeps(s: State, t: Tid)
    requires Inv(s) && t in s.threads && s.threads[t].Peeked?
    ensures Inv(RunStep(s, t).value)
  {
    var pc := s.threads[t];
    var a, e := pc.account, pc.seen;
    assert ThreadOk(s, pc) && !InLock(pc);
    if Fresh(e, s.now) {
      ServedOk(s, t, a, e.value);
      NoteKeeps(s, Served(t, a, e.value.token, s.now));
      var u := s.(log := s.log + [Served(t, a, e.value.token, s.now)]);
      NoteKeeps(u, Returned(t, a, e.value.token));
      MoveKeeps(u.(log := u.log + [Returned(t, a, e.value.token)]), t, Idle);
    } else {
      MoveKeeps(s, t, WantLock(a));
    }
  }

  lemma RunStepKeeps(s: State, t: Tid)
    requires Inv(s) && RunStep(s, t).Some?
    ensures Inv(RunStep(s, t).value)
  {
    assert t in s.threads;
    var pc := s.threads[t];
    assert ThreadOk(s, pc);
    match pc
    case Peek(a) => assert CacheOk(s, a); MoveKeeps(s, t, Peeked(a, Cached(s, a)));
    case Peeked(_, _) => PeekedKeeps(s, t);
    case WantLock(a) => AcquireKeeps(s, t, a);
    case Recheck(a) => MoveKeeps(s, t, Rechecked(a, Cached(s, a)));
    case Rechecked(_, _) => RecheckedKeeps(s, t);
    case Called(a, token) => MoveKeeps(s, t, Stamped(a, token, s.now));
    case Stamped(_, _, _) => StoreKeeps(s, t);
    case Leaving(a, token) =>
      NoteKeeps(s, Returned(t, a, token));
      ReleaseKeeps(s.(log := s.log + [Returned(t, a, token)]), t);
  }

  lemma StepKeeps(s: State, e: Event)
    requires Inv(s) && Do(s, e).Some?
    ensures Inv(Do(s, e).value)
  {
    match e
    case Tick(elapsed) => TickKeeps(s, elapsed);
    case Call(t, account) =>
      NoteKeeps(s, Asked(t, account));
      MoveKeeps(s.(log := s.log + [Asked(t, account)]), t, Peek(account));
    case Run(t) => RunStepKeeps(s, t);
    case Generated(t, serial) =>
      assert ThreadOk(s, s.threads[t]);
      MoveKeeps(s, t, Called(PcOf(s, t).account, Token(PcOf(s, t).account, serial)));
    case Failed(t) =>
      NoteKeeps(s, GenFailed(t, PcOf(s, t).account));
      ReleaseKeeps(s.(log := s.log + [GenFailed(t, PcOf(s, t).account)]), t);
  }

  // ---------------------------------------------------------- whole runs

  ghost predicate StepAt(run: seq<State>, k: nat)
    requires k + 1 < |run|
  {
    exists e :: Do(run[k], e) == Some(run[k + 1])
  }

  ghost predicate IsRun(run: seq<State>)
  {
    run != [] && (exists start :: run[0] == Initial(start)) && forall k :: 0 <= k < |run| - 1 ==> StepAt(run, k)
  }

  lemma {:induction false} RunKeeps(run: seq<State>, k: nat)
    requires IsRun(run) && k < |run|
    ensures Inv(run[k])
  {
    if k > 0 {
      RunKeeps(run, k - 1);
      assert StepAt(run, k - 1);
      var e :| Do(run[k - 1], e) == Some(run[k]);
      StepKeeps(run[k - 1], e);
    }
  }

  /** In every interleaving at most one generation is in flight, whatever the accounts. */
  lemma OneGeneration(run: seq<State>, k: nat, t: Tid, u: Tid)
    requires IsRun(run) && k < |run| && t in run[k].threads && u in run[k].threads
    requires Generating(run[k].threads[t]) && Generating(run[k].threads[u])
    ensures t == u
  {
    RunKeeps(run, k);
  }

  /** After a refresh no generation for that account starts within the time to live of its clock read. */
  lemma NoEarlyGeneration(run: seq<State>, k: nat, i: nat, j: nat)
    requires IsRun(run) && k < |run| && i < j < |run[k].log|
    requires run[k].log[i].Refreshed? && run[k].log[j].GenStart? && run[k].log[i].account == run[k].log[j].account
    ensures run[k].log[j].at >= run[k].log[i].readAt + TTL
  {
    RunKeeps(run, k);
    var log := run[k].log;
    assert NoteOk(log, j) && log[..j][i] == log[i];
  }

  /** Every token served from the cache was generated for that account, and had not run out when checked. */
  lemma ServedIsValid(run: seq<State>, k: nat, j: nat)
    requires IsRun(run) && k < |run| && j < |run[k].log| && run[k].log[j].Served?
    ensures var log := run[k].log;
            && log[j].token.account == log[j].account
            && exists i :: 0 <= i < j && log[i].Refreshed? && log[i].account == log[j].account
                 && log[i].token == log[j].token && log[j].at < log[i].readAt + TTL
  {
    RunKeeps(run, k);
    assert NoteOk(run[k].log, j);
  }

  ghost predicate Refreshes(n: Note, account: string) { n.Refreshed? && n.account == account }

  ghost function RefreshCount(log: seq<Note>, account: string): nat
  {
    if log == [] then 0
    else RefreshCount(log[..|log| - 1], account) + if Refreshes(log[|log| - 1], account) then 1 else 0
  }

  /** Refreshes of one account are a time to live apart: n of them take at least n - 1 times as long. */
  lemma {:induction false} RefreshRate(log: seq<Note>, account: string, first: nat, last: nat)
    requires LogOk(log) && first <= last < |log| && Refreshes(log[first], account) && Refreshes(log[last], account)
    requires forall i :: 0 <= i < first ==> !Refreshes(log[i], account)
    ensures log[last].readAt >= log[first].readAt + (RefreshCount(log[..last], account)) as real * TTL
    decreases last
  {
    CountBefore(log, account, first);
    if first < last {
      var prev := LastBefore(log, account, last, first);
      RefreshRate(log, account, first, prev);
      CountSteps(log, account, prev, last);
      assert NoteOk(log, last) && log[..last][prev] == log[prev];
    }
  }

  lemma {:induction false} CountBefore(log: seq<Note>, account: string, first: nat)
    requires first <= |log| && forall i :: 0 <= i < first ==> !Refreshes(log[i], account)
    ensures RefreshCount(log[..first], account) == 0
    decreases first
  {
    if first > 0 {
      CountBefore(log, account, first - 1);
      assert log[..first][..first - 1] == log[..first - 1];
    }
  }

  /** The latest refresh before a position, when there is one. */
  lemma {:induction false} LastBefore(log: seq<Note>, account: string, last: nat, some: nat) returns (prev: nat)
    requires some < last <= |log| && Refreshes(log[some], account)
    ensures some <= prev < last && Refreshes(log[prev], account)
    ensures forall i :: prev < i < last ==> !Refreshes(log[i], account)
    decreases last
  {
    if Refreshes(log[last - 1], account) {
      prev := last - 1;
    } else {
      prev := LastBefore(log, account, last - 1, some);
    }
  }

  lemma {:induction false} CountSteps(log: seq<Note>, account: string, prev: nat, last: nat)
    requires prev < last <= |log| && Refreshes(log[prev], account)
    requires forall i :: prev < i < last ==> !Refreshes(log[i], account)
    ensures RefreshCount(log[..last], account) == RefreshCount(log[..prev], account) + 1
    decreases last
  {
    assert log[..last][..last - 1] == log[..last - 1];
    if prev + 1 < last {
      CountSteps(log, account, prev, last - 1);
    }
  }

  /** In every run, the n-th refresh of an account comes at least n times the time to live after the first. */
  lemma RefreshesSpaced(run: seq<State>, k: nat, account: string, first: nat, last: nat)
    requires IsRun(run) && k < |run| && first <= last < |run[k].log|
    requires Refreshes(run[k].log[first], account) && Refreshes(run[k].log[last], account)
    requires forall i :: 0 <= i < first ==> !Refreshes(run[k].log[i], account)
    ensures run[k].log[last].readAt
         >= run[k].log[first].readAt + RefreshCount(run[k].log[..last], account) as real * TTL
  {
    RunKeeps(run, k);
    RefreshRate(run[k].log, account, first, last);
  }

  /** A failed generation frees the lock and leaves the cache as it was, so the next caller tries again. */
  lemma FailureIsClean(run: seq<State>, k: nat, t: Tid)
    requires IsRun(run) && k < |run| && PcOf(run[k], t).Calling?
    ensures Do(run[k], Failed(t)).Some?
    ensures var u := Do(run[k], Failed(t)).value;
            u.cache == run[k].cache && u.lock.None? && PcOf(u, t).Idle? && forall r :: r in u.threads ==> !InLock(u.threads[r])
  {
    RunKeeps(run, k);
    StepKeeps(run[k], Failed(t));
  }

  /** Time can always pass, and after a time to live no entry of any account counts as fresh. */
  lemma EverythingExpires(run: seq<State>, k: nat, account: string)
    requires IsRun(run) && k < |run|
    ensures Do(run[k], Tick(TTL)).Some? && !Fresh(Cached(Do(run[k], Tick(TTL)).value, account), run[k].now + TTL)
    ensures Do(run[k], Tick(TTL)).value == run[k].(now := run[k].now + TTL)
  {
    RunKeeps(run, k);
    assert CacheOk(run[k], account);
  }

  /** Whoever is in the way of the lock can go on: the holder is never stuck behind another thread. */
  lemma HolderCanGoOn(run: seq<State>, k: nat, t: Tid)
    requires IsRun(run) && k < |run| && t in run[k].threads && run[k].threads[t].WantLock? && RunStep(run[k], t).None?
    ensures run[k].lock.Some? && run[k].lock.value in run[k].threads
    ensures RunStep(run[k], run[k].lock.value).Some? || run[k].threads[run[k].lock.value].Calling?
  {
    RunKeeps(run, k);
  }

  // ---------------------------------------------- what every call comes to

  /** The notes of thread t since its last call began. */
  ghost function CallNotes(log: seq<Note>, t: Tid): seq<Note>
  {
    if log == [] then []
    else
      var earlier, n := CallNotes(log[..|log| - 1], t), log[|log| - 1];
      if n.t != t then earlier else if n.Asked? then [n] else earlier + [n]
  }

  /** A call for the account whose only other act so far was to start a generation for it. */
  ghost predicate Started(ns: seq<Note>, t: Tid, account: string)
  {
    |ns| == 2 && ns[0] == Asked(t, account) && ns[1].GenStart? && ns[1].account == account
  }

  /** A call for the account that found the token in the cache unexpired, or generated and stored it itself. */
  ghost predicate Settled(ns: seq<Note>, t: Tid, account: string, token: Token)
  {
    || (|ns| == 2 && ns[0] == Asked(t, account) && ns[1].Served? && ns[1].account == account && ns[1].token == token)
    || (|ns| == 3 && Started(ns[..2], t, account) && ns[2].Refreshed? && ns[2].account == account && ns[2].token == token)
  }

  ghost predicate CallOk(log: seq<Note>, t: Tid, pc: Pc)
  {
    match pc
    case Idle => true
    case Calling(a) => Started(CallNotes(log, t), t, a)
    case Called(a, _) => Started(CallNotes(log, t), t, a)
    case Stamped(a, _, _) => Started(CallNotes(log, t), t, a)
    case Leaving(a, token) => Settled(CallNotes(log, t), t, a, token)
    case _ => CallNotes(log, t) == [Asked(t, pc.account)]
  }

  ghost predicate EndsWell(log: seq<Note>, n: Note)
  {
    && (n.Returned? ==> Settled(CallNotes(log, n.t), n.t, n.account, n.token))
    && (n.GenFailed? ==> Started(CallNotes(log, n.t), n.t, n.account))
  }

  ghost predicate AllEndWell(log: seq<Note>) { forall k :: 0 <= k < |log| ==> EndsWell(log[..k], log[k]) }

  ghost predicate InCalls(s: State)
  {
    AllEndWell(s.log) && forall t :: t in s.threads ==> CallOk(s.log, t, s.threads[t])
  }

  lemma NoteAdded(log: seq<Note>, n: Note, t: Tid)
    ensures CallNotes(log + [n], t)
         == if n.t != t then CallNotes(log, t) else if n.Asked? then [n] else CallNotes(log, t) + [n]
  {
    assert (log + [n])[..|log|] == log;
  }

  lemma EndsGrow(log: seq<Note>, n: Note)
    requires AllEndWell(log) && EndsWell(log, n)
    ensures AllEndWell(log + [n])
  {
    forall k | 0 <= k <= |log| ensures EndsWell((log + [n])[..k], (log + [n])[k]) {
      assert (log + [n])[..k] == log[..k];
      assert log[..|log|] == log;
    }
  }

  lemma ThreadMoves(s: State, u: State, t: Tid, pc: Pc)
    requires InCalls(s) && u.threads == s.threads[t := pc] && u.log == s.log && CallOk(s.log, t, pc)
    ensures InCalls(u)
  {
  }

  /** A thread moves and notes something: the other threads' calls are as before. */
  lemma ThreadNotes(s: State, u: State, t: Tid, pc: Pc, n: Note)
    requires InCalls(s) && u.threads == s.threads[t := pc] && u.log == s.log + [n] && n.t == t
    requires EndsWell(s.log, n) && CallOk(u.log, t, pc)
    ensures InCalls(u)
  {
    EndsGrow(s.log, n);
    forall r | r in u.threads ensures CallOk(u.log, r, u.threads[r]) {
      if r != t {
        NoteAdded(s.log, n, r);
      }
    }
  }

  lemma PeekedInCalls(s: State, t: Tid)
    requires InCalls(s) && t in s.threads && s.threads[t].Peeked?
    ensures InCalls(RunStep(s, t).value)
  {
    var pc, u := s.threads[t], RunStep(s, t).value;
    var a, e := pc.account, pc.seen;
    assert CallOk(s.log, t, pc);
    if Fresh(e, s.now) {
      var n, m := Served(t, a, e.value.token, s.now), Returned(t, a, e.value.token);
      var v := s.(threads := s.threads[t := Idle], log := s.log + [n]);
      NoteAdded(s.log, n, t);
      ThreadNotes(s, v, t, Idle, n);
      ThreadNotes(v, u, t, Idle, m);
    } else {
      ThreadMoves(s, u, t, WantLock(a));
    }
  }

  lemma NotingInCalls(s: State, t: Tid)
    requires InCalls(s) && t in s.threads
    requires s.threads[t].Rechecked? || s.threads[t].Stamped? || s.threads[t].Leaving?
    ensures InCalls(RunStep(s, t).value)
  {
    var u := RunStep(s, t).value;
    var n := u.log[|s.log|];
    assert CallOk(s.log, t, s.threads[t]);
    NoteAdded(s.log, n, t);
    ThreadNotes(s, u, t, u.threads[t], n);
  }

  lemma RunStepInCalls(s: State, t: Tid)
    requires InCalls(s) && RunStep(s, t).Some?
    ensures InCalls(RunStep(s, t).value)
  {
    assert t in s.threads;
    var pc, u := s.threads[t], RunStep(s, t).value;
    assert CallOk(s.log, t, pc);
    if pc.Peeked? {
      PeekedInCalls(s, t);
    } else if pc.Rechecked? || pc.Stamped? || pc.Leaving? {
      NotingInCalls(s, t);
    } else {
      ThreadMoves(s, u, t, u.threads[t]);
    }
  }

  lemma StepInCalls(s: State, e: Event)
    requires InCalls(s) && Do(s, e).Some?
    ensures InCalls(Do(s, e).value)
  {
    var u := Do(s, e).value;
    match e
    case Tick(_) =>
    case Run(t) => RunStepInCalls(s, t);
    case Call(t, account) =>
      NoteAdded(s.log, Asked(t, account), t);
      ThreadNotes(s, u, t, Peek(account), Asked(t, account));
    case Generated(t, _) =>
      assert CallOk(s.log, t, s.threads[t]);
      ThreadMoves(s, u, t, u.threads[t]);
    case Failed(t) =>
      assert CallOk(s.log, t, s.threads[t]);
      ThreadNotes(s, u, t, Idle, GenFailed(t, s.threads[t].account));
  }

  lemma {:induction false} RunInCalls(run: seq<State>, k: nat)
    requires IsRun(run) && k < |run|
    ensures InCalls(run[k])
  {
    if k > 0 {
      RunInCalls(run, k - 1);
      assert StepAt(run, k - 1);
      var e :| Do(run[k - 1], e) == Some(run[k]);
      StepInCalls(run[k - 1], e);
    }
  }

  /**
   * In every interleaving, whatever a call returns is a token generated for the account it was
   * called with, which the call itself either found unexpired in the cache or generated and
   * stored; and a call that raises had started a generation for its account.
   */
  lemma EveryAnswer(run: seq<State>, k: nat, j: nat)
    requires IsRun(run) && k < |run| && j < |run[k].log|
    ensures var log, n := run[k].log, run[k].log[j];
            && (n.Returned? ==> n.token.account == n.account && Settled(CallNotes(log[..j], n.t), n.t, n.account, n.token))
            && (n.GenFailed? ==> Started(CallNotes(log[..j], n.t), n.t, n.account))
  {
    RunKeeps(run, k);
    RunInCalls(run, k);
    assert NoteOk(run[k].log, j) && EndsWell(run[k].log[..j], run[k].log[j]);
  }

  // ------------------------------------------------------- a call by itself

  ghost function Play(s: State, es: seq<Event>): Option<State>
    decreases |es|
  {
    if es == [] then Some(s)
    else
      var t := Do(s, es[0]);
      if t.None? then None else Play(t.value, es[1..])
  }

  lemma PlayTwo(s: State, e: Event, t: State, es: seq<Event>)
    requires Do(s, e) == Some(t)
    ensures Play(s, [e] + es) == Play(t, es)
  {
    assert ([e] + es)[1..] == es;
  }

  /** With an unexpired entry cached, a call answers with it and touches neither lock nor service. */
  lemma CachedCall(s: State, t: Tid, a: string)
    requires PcOf(s, t).Idle? && a in s.cache && s.now < s.cache[a].expiry
    ensures var token := s.cache[a].token;
            Play(s, [Call(t, a), Run(t), Run(t)])
            == Some(At(s, t, Idle).(
                      log := s.log + [Asked(t, a)] + [Served(t, a, token, s.now)] + [Returned(t, a, token)]))
  {
    var s1 := Do(s, Call(t, a)).value;
    var s2 := Do(s1, Run(t)).value;
    var s3 := Do(s2, Run(t)).value;
    PlayThree(s, Call(t, a), s1, Run(t), s2, Run(t), s3);
    assert s3.threads == s.threads[t := Idle];
  }

  lemma {:induction false} PlayOn(s: State, es: seq<Event>, t: State, fs: seq<Event>)
    requires Play(s, es) == Some(t)
    ensures Play(s, es + fs) == Play(t, fs)
    decreases |es|
  {
    if es == [] {
      assert es + fs == fs;
    } else {
      PlayOn(Do(s, es[0]).value, es[1..], t, fs);
      assert (es + fs)[1..] == es[1..] + fs;
    }
  }

  /** Without an unexpired entry and with the lock free, a call is soon inside the lock, starting a generation. */
  lemma StartsGeneration(s: State, t: Tid, a: string)
    requires PcOf(s, t).Idle? && !Fresh(Cached(s, a), s.now) && s.lock.None?
    ensures Play(s, [Call(t, a), Run(t), Run(t), Run(t), Run(t), Run(t)])
         == Some(At(s, t, Calling(a)).(lock := Some(t), log := s.log + [Asked(t, a)] + [GenStart(t, a, s.now)]))
  {
    var s1 := Do(s, Call(t, a)).value;
    var s2 := Do(s1, Run(t)).value;
    var s3 := Do(s2, Run(t)).value;
    var s4 := Do(s3, Run(t)).value;
    var s5 := Do(s4, Run(t)).value;
    var s6 := Do(s5, Run(t)).value;
    assert s6.threads == s.threads[t := Calling(a)];
    PlayThree(s, Call(t, a), s1, Run(t), s2, Run(t), s3);
    PlayThree(s3, Run(t), s4, Run(t), s5, Run(t), s6);
    PlayOn(s, [Call(t, a), Run(t), Run(t)], s3, [Run(t), Run(t), Run(t)]);
    assert [Call(t, a), Run(t), Run(t)] + [Run(t), Run(t), Run(t)] == [Call(t, a), Run(t), Run(t), Run(t), Run(t), Run(t)];
  }

  lemma PlayThree(s: State, e1: Event, s1: State, e2: Event, s2: State, e3: Event, s3: State)
    requires Do(s, e1) == Some(s1) && Do(s1, e2) == Some(s2) && Do(s2, e3) == Some(s3)
    ensures Play(s, [e1, e2, e3]) == Some(s3)
  {
    assert [e1, e2, e3] == [e1] + ([e2] + ([e3] + []));
    PlayTwo(s, e1, s1, [e2] + ([e3] + []));
    PlayTwo(s1, e2, s2, [e3] + []);
    PlayTwo(s2, e3, s3, []);
  }

  /** When the service answers, the call stores the token for a time to live from then on, frees the lock and returns it. */
  lemma ReturnsGenerated(s: State, t: Tid, a: string, serial: nat)
    requires PcOf(s, t) == Calling(a)
    ensures var token := Token(a, serial);
            Play(s, [Generated(t, serial), Run(t), Run(t)] + [Run(t)])
            == Some(At(s, t, Idle).(
                      cache := s.cache[a := Entry(token, s.now + TTL)],
                      lock := None,
                      log := s.log + [Refreshed(t, a, token, s.now)] + [Returned(t, a, token)]))
  {
    var s1 := Do(s, Generated(t, serial)).value;
    var s2 := Do(s1, Run(t)).value;
    var s3 := Do(s2, Run(t)).value;
    var s4 := Do(s3, Run(t)).value;
    assert s4.threads == s.threads[t := Idle];
    PlayThree(s, Generated(t, serial), s1, Run(t), s2, Run(t), s3);
    PlayOn(s, [Generated(t, serial), Run(t), Run(t)], s3, [Run(t)]);
    PlayTwo(s3, Run(t), s4, []);
    assert [Run(t)] + [] == [Run(t)];
  }
}
