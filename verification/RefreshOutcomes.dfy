/**
 What the calls around a refresh come to, over every run: which steps a call cannot do without, and what a
 clear leaves behind.
 */
module RefreshOutcomes {
  import opened Options
  import opened RefreshProtocol

  /** Where a caller is; one that does not exist does nothing. */
  function Place(s: State, i: nat): CallerPc {
    if i < |s.callers| then s.callers[i] else Idle
  }

  /** Only its own step moves a caller, and to where the source goes on. */
  lemma OneMoves(states: seq<State>, actions: seq<Action>, i: nat, k: nat)
    requires Run(states, actions) && k < |actions|
    ensures Enabled(states[k], actions[k]) && states[k + 1] == Next(states[k], actions[k])
    ensures (actions[k].CallerStep? && actions[k].i == i) || Place(states[k + 1], i) == Place(states[k], i)
    ensures actions[k].CallerStep? && actions[k].i == i ==>
              Place(states[k + 1], i) == CallerGoes(states[k], Place(states[k], i), actions[k].ok)
  {
  }

  /** Only its own step moves clear, and to where the source goes on. */
  lemma ClearMoves(states: seq<State>, actions: seq<Action>, k: nat)
    requires Run(states, actions) && k < |actions|
    ensures states[k + 1].clear == if actions[k] == ClearStep then ClearGoes(states[k]) else states[k].clear
    ensures actions[k] == ClearStep && states[k].clear == CJoin ==> states[k].worker == WDone
  {
  }

  /** From where a caller gets to its own refresh, and from where to a request. */
  lemma ComesFrom(s: State, pc: CallerPc, ok: bool)
    ensures CallerGoes(s, pc, ok).Sync? ==> pc.Sync? || (pc == Init(false, IOk) && s.initOk)
    ensures CallerGoes(s, pc, ok).Req? ==> pc.Req? || (pc == Async(AOk) && s.asyncOk)
  {
    match pc
    case Idle =>
    case Init(async, p) =>
    case Async(p) =>
    case Req(p) =>
    case Sync(p) =>
  }

  // ---------- a synchronous call ----------

  /** A call that has reached the refresh mutex does not return without refreshing. */
  lemma {:induction false} LockedRefreshes(states: seq<State>, actions: seq<Action>, i: nat, a: nat, b: nat)
    returns (k: nat)
    requires Run(states, actions) && a < b < |states|
    requires Place(states[a], i) == Sync(SLock) && Place(states[b], i) == Idle
    ensures a < k < b && Place(states[k], i) == Sync(SRefresh)
    decreases b - a
  {
    OneMoves(states, actions, i, a);
    if Place(states[a + 1], i) == Sync(SRefresh) {
      k := a + 1;
    } else {
      k := LockedRefreshes(states, actions, i, a + 1, b);
    }
  }

  /** xh_core_refresh(0): it returns after refreshing, or because the initialisation has failed. */
  lemma {:induction false} SyncCall(states: seq<State>, actions: seq<Action>, i: nat, a: nat, b: nat)
    returns (k: nat)
    requires Run(states, actions) && a < b < |states|
    requires Place(states[a], i).Init? && !Place(states[a], i).async && Place(states[b], i) == Idle
    ensures a <= k < b
    ensures Place(states[k], i) == Sync(SRefresh) || (Place(states[k], i) == Init(false, IOk) && !states[k].initOk)
    decreases b - a
  {
    OneMoves(states, actions, i, a);
    if Place(states[a + 1], i) == Idle {
      k := a;
    } else if Place(states[a + 1], i) == Sync(SLock) {
      k := LockedRefreshes(states, actions, i, a + 1, b);
    } else {
      k := SyncCall(states, actions, i, a + 1, b);
    }
  }

  // ---------- an asynchronous call ----------

  /** Somewhere in an asynchronous call, before the request is noted. */
  predicate BeforeRequest(pc: CallerPc) {
    (pc.Init? && pc.async) || pc.Async? || pc == Req(RLock) || pc == Req(RSet)
  }

  /** The step by which a caller notes its request. */
  predicate Notes(s: State, t: State, i: nat) {
    Place(s, i) == Req(RSet) && t.pending && t.unserved == s.unserved + 1
  }

  /** xh_core_refresh(1): it returns after noting its request, or because an initialisation has failed. */
  lemma {:induction false} AsyncCall(states: seq<State>, actions: seq<Action>, i: nat, a: nat, b: nat)
    returns (k: nat)
    requires Run(states, actions) && a < b < |states|
    requires BeforeRequest(Place(states[a], i)) && Place(states[b], i) == Idle
    ensures a <= k < b
    ensures
      || Notes(states[k], states[k + 1], i)
      || (Place(states[k], i) == Init(true, IOk) && !states[k].initOk)
      || (Place(states[k], i) == Async(AOk) && !states[k].asyncOk)
    decreases b - a
  {
    OneMoves(states, actions, i, a);
    if BeforeRequest(Place(states[a + 1], i)) {
      k := AsyncCall(states, actions, i, a + 1, b);
    } else {
      k := a;
    }
  }

  lemma CameFrom(states: seq<State>, actions: seq<Action>, i: nat, k: nat)
    requires Run(states, actions) && k < |actions|
    ensures Place(states[k + 1], i).Sync? ==>
              Place(states[k], i).Sync? || (Place(states[k], i) == Init(false, IOk) && states[k].initOk)
    ensures Place(states[k + 1], i).Req? ==>
              Place(states[k], i).Req? || (Place(states[k], i) == Async(AOk) && states[k].asyncOk)
  {
    OneMoves(states, actions, i, k);
    if actions[k].CallerStep? {
      ComesFrom(states[k], Place(states[k], i), actions[k].ok);
    }
  }

  /** And nobody gets to a refresh without the initialisation having succeeded. */
  lemma {:induction false} SyncInitialised(states: seq<State>, actions: seq<Action>, i: nat, a: nat, b: nat)
    returns (k: nat)
    requires Run(states, actions) && a <= b < |states|
    requires !Place(states[a], i).Sync? && Place(states[b], i).Sync?
    ensures a <= k < b && Place(states[k], i) == Init(false, IOk) && states[k].initOk
    decreases b - a
  {
    CameFrom(states, actions, i, a);
    if Place(states[a + 1], i).Sync? {
      k := a;
    } else {
      k := SyncInitialised(states, actions, i, a + 1, b);
    }
  }

  /** Nor to a request without the refresh thread having been created. */
  lemma {:induction false} RequestInitialised(states: seq<State>, actions: seq<Action>, i: nat, a: nat, b: nat)
    returns (k: nat)
    requires Run(states, actions) && a <= b < |states|
    requires !Place(states[a], i).Req? && Place(states[b], i).Req?
    ensures a <= k < b && Place(states[k], i) == Async(AOk) && states[k].asyncOk
    decreases b - a
  {
    CameFrom(states, actions, i, a);
    if Place(states[a + 1], i).Req? {
      k := a;
    } else {
      k := RequestInitialised(states, actions, i, a + 1, b);
    }
  }

  // ---------- once only ----------

  /** Where a flag is given up, clear has reset it. */
  lemma {:induction false} ResetBetween(states: seq<State>, actions: seq<Action>, a: nat, b: nat) returns (k: nat)
    requires Run(states, actions) && a <= b < |states|
    requires (states[a].inited && !states[b].inited) || (states[a].asyncInited && !states[b].asyncInited)
    ensures a <= k < b && states[k].clear == CReset && actions[k] == ClearStep
    decreases b - a
  {
    OneMoves(states, actions, 0, a);
    if states[a].clear == CReset && actions[a] == ClearStep {
      k := a;
    } else {
      k := ResetBetween(states, actions, a + 1, b);
    }
  }

  /** The step takes a caller to the installation of the signal handler. */
  predicate Installs(s: State, a: Action) {
    && a.CallerStep?
    && var next := CallerGoes(s, Place(s, a.i), a.ok);
       next.Init? && next.init == IHandler
  }

  /** The handler is installed once until the next clear. */
  lemma HandlerOnce(states: seq<State>, actions: seq<Action>, a: nat, b: nat) returns (k: nat)
    requires Run(states, actions) && a < b < |actions|
    requires Installs(states[a], actions[a]) && Installs(states[b], actions[b])
    ensures a < k < b && states[k].clear == CReset && actions[k] == ClearStep
  {
    OneMoves(states, actions, actions[a].i, a);
    OneMoves(states, actions, actions[b].i, b);
    k := ResetBetween(states, actions, a + 1, b);
  }

  /** The step takes a caller to the creation of the refresh thread. */
  predicate Creates(s: State, a: Action) {
    a.CallerStep? && CallerGoes(s, Place(s, a.i), a.ok) == Async(ACreate)
  }

  /** And so is the thread created once. */
  lemma ThreadOnce(states: seq<State>, actions: seq<Action>, a: nat, b: nat) returns (k: nat)
    requires Run(states, actions) && a < b < |actions|
    requires Creates(states[a], actions[a]) && Creates(states[b], actions[b])
    ensures a < k < b && states[k].clear == CReset && actions[k] == ClearStep
  {
    OneMoves(states, actions, actions[a].i, a);
    OneMoves(states, actions, actions[b].i, b);
    k := ResetBetween(states, actions, a + 1, b);
  }

  // ---------- when an initialisation counts as failed ----------

  predicate AtHandler(pc: CallerPc) {
    pc.Init? && pc.init == IHandler
  }

  predicate AtCreation(pc: CallerPc) {
    pc == Async(ACreate) || pc == Async(ASetOk)
  }

  /** The handler is being installed: by the caller that holds the mutex, since it takes the mutex. */
  predicate Installing(s: State) {
    s.mutex.ByCaller? && AtHandler(Place(s, s.mutex.i))
  }

  /** The thread is being created. */
  predicate Starting(s: State) {
    s.mutex.ByCaller? && AtCreation(Place(s, s.mutex.i))
  }

  lemma MutexTells(s: State, i: nat)
    requires Inv(s)
    ensures AtHandler(Place(s, i)) ==> Installing(s)
    ensures AtCreation(Place(s, i)) ==> Starting(s)
  {
  }

  function FailuresAfter(s: State, a: Action, failures: nat): nat {
    if a == ClearStep && s.clear == CReset then 0
    else if a.CallerStep? && !a.ok && AtHandler(Place(s, a.i)) then failures + 1
    else failures
  }

  function UncreatedAfter(s: State, a: Action, uncreated: nat): nat {
    if a == ClearStep && s.clear == CReset then 0
    else if a.CallerStep? && !a.ok && Place(s, a.i) == Async(ACreate) then uncreated + 1
    else uncreated
  }

  /** Failures to install the handler since the last clear. */
  function Failures(states: seq<State>, actions: seq<Action>, n: nat): nat
    requires n <= |actions| && n <= |states|
  {
    if n == 0 then 0 else FailuresAfter(states[n - 1], actions[n - 1], Failures(states, actions, n - 1))
  }

  /** Failures to create the thread since then. */
  function Uncreated(states: seq<State>, actions: seq<Action>, n: nat): nat
    requires n <= |actions| && n <= |states|
  {
    if n == 0 then 0 else UncreatedAfter(states[n - 1], actions[n - 1], Uncreated(states, actions, n - 1))
  }

  /** Behind the test of a flag the flag is set. */
  ghost predicate Tested(s: State) {
    forall i :: 0 <= i < |s.callers| ==>
      var pc := s.callers[i];
      && (AtHandler(pc) || (pc.Init? && (pc.init.IUnlock? || pc.init.IOk?)) ==> s.inited)
      && (AtCreation(pc) || pc == Async(AUnlock) || pc == Async(AOk) ==> s.asyncInited)
  }

  lemma StepKeepsTested(s: State, a: Action)
    requires Inv(s) && Tested(s) && Enabled(s, a)
    ensures Tested(Next(s, a))
  {
  }

  /** What the flags for the handler say of the past. */
  ghost predicate HandlerFlags(s: State, failures: nat) {
    && (!s.inited || Installing(s) ==> !s.initOk && failures == 0)
    && (s.inited && !Installing(s) ==> (s.initOk <==> failures == 0))
  }

  /** What those for the thread say; clear gives up the second of them before the first. */
  ghost predicate ThreadFlags(s: State, uncreated: nat) {
    && (!s.asyncInited || Starting(s) ==> !s.asyncOk && uncreated == 0)
    && (s.asyncInited && !Starting(s) && !s.clear.CReset? ==> (s.asyncOk <==> uncreated == 0))
  }

  lemma HandlerStep(s: State, a: Action, failures: nat)
    requires Inv(s) && Tested(s) && Enabled(s, a) && HandlerFlags(s, failures)
    ensures HandlerFlags(Next(s, a), FailuresAfter(s, a, failures))
  {
    match a
    case CallerStep(i, ok) => MutexTells(s, i);
    case WorkerStep =>
    case ClearStep =>
    case SpuriousWakeup =>
  }

  lemma ThreadStep(s: State, a: Action, uncreated: nat)
    requires Inv(s) && Tested(s) && Enabled(s, a) && ThreadFlags(s, uncreated)
    ensures ThreadFlags(Next(s, a), UncreatedAfter(s, a, uncreated))
  {
    match a
    case CallerStep(i, ok) => MutexTells(s, i);
    case WorkerStep =>
    case ClearStep =>
    case SpuriousWakeup =>
  }

  /**
   The flags tell exactly what has happened since the last clear: unless the handler is being installed, or
   the thread created, at this moment, the initialisation counts as done well if it has not failed.
   */
  lemma {:induction false} FlagsTell(states: seq<State>, actions: seq<Action>, callers: nat, k: nat)
    requires Run(states, actions) && states[0] == Initial(callers) && k <= |actions|
    ensures Tested(states[k])
    ensures HandlerFlags(states[k], Failures(states, actions, k))
    ensures ThreadFlags(states[k], Uncreated(states, actions, k))
  {
    if k == 0 {
    } else {
      FlagsTell(states, actions, callers, k - 1);
      RunKeepsInv(states, actions, callers, k - 1);
      OneMoves(states, actions, 0, k - 1);
      StepKeepsTested(states[k - 1], actions[k - 1]);
      HandlerStep(states[k - 1], actions[k - 1], Failures(states, actions, k - 1));
      ThreadStep(states[k - 1], actions[k - 1], Uncreated(states, actions, k - 1));
    }
  }

  /** A call is refused because an installation failed, or while another caller's is under way. */
  lemma Refused(states: seq<State>, actions: seq<Action>, callers: nat, i: nat, k: nat)
    requires Run(states, actions) && states[0] == Initial(callers) && k <= |actions|
    requires Place(states[k], i).Init? && Place(states[k], i).init == IOk
    ensures !states[k].initOk <==> Failures(states, actions, k) > 0 || Installing(states[k])
  {
    FlagsTell(states, actions, callers, k);
  }

  /** Likewise for the creation of the thread. */
  lemma RefusedThread(states: seq<State>, actions: seq<Action>, callers: nat, i: nat, k: nat)
    requires Run(states, actions) && states[0] == Initial(callers) && k <= |actions|
    requires Place(states[k], i) == Async(AOk)
    ensures !states[k].asyncOk <==> Uncreated(states, actions, k) > 0 || Starting(states[k])
  {
    FlagsTell(states, actions, callers, k);
    RunKeepsInv(states, actions, callers, k);
  }

  /** Two callers, nothing else set up or held, and whether the handler is being installed. */
  function Two(mutex: Owner, inited: bool, first: CallerPc, second: CallerPc): State {
    State(mutex, NoOne, false, false, inited, false, false, false, [first, second], WNone, CIdle, 0)
  }

  /** So a call can be refused although nothing fails: the second caller comes while the first installs. */
  lemma RefusedThoughFine()
    ensures var first, second := CallerStep(0, true), CallerStep(1, true);
            var t := Two(ByCaller(0), true, Init(true, IHandler), Init(true, IOk));
            && After(Initial(2), [first, first, first, first, second, second]) == Some(t)
            && Enabled(t, second) && Place(Next(t, second), 1) == Idle
  {
    var first, second := CallerStep(0, true), CallerStep(1, true);
    var t := Two(ByCaller(0), true, Init(true, IHandler), Init(true, IOk));
    var s1 := Two(NoOne, false, Init(true, ICheck), Idle);
    var s2 := Two(NoOne, false, Init(true, ILock), Idle);
    FirstInstalls(t);
    AfterStep(s1, first, s2, [first, first, second, second], t);
    AfterStep(Initial(2), first, s1, [first, first, first, second, second], t);
    assert [first] + [first, first, first, second, second] == [first, first, first, first, second, second];
  }

  lemma FirstInstalls(t: State)
    requires t == Two(ByCaller(0), true, Init(true, IHandler), Init(true, IOk))
    ensures After(Two(NoOne, false, Init(true, ILock), Idle),
                  [CallerStep(0, true), CallerStep(0, true), CallerStep(1, true), CallerStep(1, true)]) == Some(t)
  {
    var first, second := CallerStep(0, true), CallerStep(1, true);
    var s3 := Two(ByCaller(0), false, Init(true, ITest), Idle);
    var s4 := Two(ByCaller(0), true, Init(true, IHandler), Idle);
    SecondPasses(t);
    AfterStep(s3, first, s4, [second, second], t);
    AfterStep(Two(NoOne, false, Init(true, ILock), Idle), first, s3, [first, second, second], t);
  }

  lemma SecondPasses(t: State)
    requires t == Two(ByCaller(0), true, Init(true, IHandler), Init(true, IOk))
    ensures After(Two(ByCaller(0), true, Init(true, IHandler), Idle),
                  [CallerStep(1, true), CallerStep(1, true)]) == Some(t)
  {
    var second := CallerStep(1, true);
    var s4 := Two(ByCaller(0), true, Init(true, IHandler), Idle);
    var s5 := Two(ByCaller(0), true, Init(true, IHandler), Init(true, ICheck));
    AfterStep(s5, second, t, [], t);
    AfterStep(s4, second, s5, [second], t);
  }

  lemma AfterStep(s: State, a: Action, u: State, more: seq<Action>, t: State)
    requires Enabled(s, a) && Next(s, a).(callers := u.callers) == u && Next(s, a).callers == u.callers
    requires After(u, more) == Some(t)
    ensures After(s, [a] + more) == Some(t)
  {
    assert ([a] + more)[1..] == more;
  }

  /** The state some actions lead to, if each is enabled in its turn. */
  function After(s: State, actions: seq<Action>): Option<State>
    decreases |actions|
  {
    if actions == [] then Some(s)
    else if !Enabled(s, actions[0]) then None
    else After(Next(s, actions[0]), actions[1..])
  }

  // ---------- refreshes and requests ----------

  /** The steps by which the refresh thread starts to refresh. */
  function Started(states: seq<State>, actions: seq<Action>, n: nat): nat
    requires n <= |actions| && n <= |states|
  {
    if n == 0 then 0
    else
      var now := if actions[n - 1].WorkerStep? && states[n - 1].worker.WRLock? then 1 else 0;
      Started(states, actions, n - 1) + now
  }

  /** The requests noted. */
  function Requested(states: seq<State>, actions: seq<Action>, n: nat): nat
    requires n <= |actions| && n <= |states|
  {
    if n == 0 then 0
    else
      var now := if actions[n - 1].CallerStep? && Place(states[n - 1], actions[n - 1].i) == Req(RSet) then 1 else 0;
      Requested(states, actions, n - 1) + now
  }

  /** The refresh thread never refreshes more often than it is asked to. */
  lemma {:induction false} NoMoreThanRequested(states: seq<State>, actions: seq<Action>, callers: nat, n: nat)
    requires Run(states, actions) && states[0] == Initial(callers) && n <= |actions|
    ensures Started(states, actions, n) + (if states[n].pending then 1 else 0)
            + (if states[n].worker.WUnlock? || states[n].worker.WRLock? then 1 else 0)
            <= Requested(states, actions, n)
  {
    if n == 0 {
    } else {
      NoMoreThanRequested(states, actions, callers, n - 1);
      RunKeepsInv(states, actions, callers, n - 1);
      OneMoves(states, actions, if actions[n - 1].CallerStep? then actions[n - 1].i else 0, n - 1);
    }
  }

  // ---------- the end of the refresh thread ----------

  /** The thread has not begun another refresh since it was told to stop. */
  predicate Ending(pc: WorkerPc) {
    pc.WLock? || pc.WLoop? || pc.WSleep? || pc.WWoken? || pc.WTest? || pc.WExit? || pc.WDone?
  }

  lemma StoppedStep(s: State, a: Action)
    requires Inv(s) && Enabled(s, a) && !s.running && Ending(s.worker) && !Next(s, a).worker.WNone?
    ensures Ending(Next(s, a).worker)
  {
    match a
    case CallerStep(i, ok) =>
      assert s.callers[i] == Async(ACreate) ==> AboutToCreate(s);
    case WorkerStep =>
    case ClearStep =>
    case SpuriousWakeup =>
  }

  /** Once nothing is to run any more a thread that waits for requests ends without looking at them. */
  lemma {:induction false} StoppedEnds(states: seq<State>, actions: seq<Action>, a: nat, b: nat)
    requires Run(states, actions) && a <= b < |states| && Inv(states[a]) && Ending(states[a].worker)
    requires forall k :: a <= k <= b ==> !states[k].running && !states[k].worker.WNone?
    ensures Ending(states[b].worker)
    decreases b - a
  {
    if a < b {
      OneMoves(states, actions, 0, a);
      StoppedStep(states[a], actions[a]);
      StepKeepsInv(states[a], actions[a]);
      StoppedEnds(states, actions, a + 1, b);
    }
  }

  lemma TopStep(s: State, a: Action)
    requires Enabled(s, a) && Inv(s) && !s.running && (s.worker == WTop || s.worker == WDone)
    requires !Next(s, a).worker.WNone?
    ensures Next(s, a).worker == WTop || Next(s, a).worker == WDone
    ensures a == WorkerStep ==> Next(s, a).worker == WDone
  {
  }

  /** And one that is back at the top ends without touching the mutex. */
  lemma {:induction false} StoppedAtTop(states: seq<State>, actions: seq<Action>, a: nat, b: nat)
    requires Run(states, actions) && a <= b < |states| && Inv(states[a])
    requires states[a].worker == WTop || states[a].worker == WDone
    requires forall k :: a <= k <= b ==> !states[k].running && !states[k].worker.WNone?
    ensures states[b].worker == WTop || states[b].worker == WDone
    decreases b - a
  {
    if a < b {
      OneMoves(states, actions, 0, a);
      TopStep(states[a], actions[a]);
      StepKeepsInv(states[a], actions[a]);
      StoppedAtTop(states, actions, a + 1, b);
    }
  }

  // ---------- clear ----------

  /** Nothing is set up: neither the handler nor the thread. */
  predicate Bare(s: State) {
    !s.inited && !s.initOk && !s.asyncInited && !s.asyncOk && !s.running && s.worker.WNone?
  }

  /** Clear is behind its reset. */
  predicate BehindReset(pc: ClearPc) {
    pc.CLockM? || pc.CLockR? || pc.CFree? || pc.CUnlockR? || pc.CUnlockM?
  }

  lemma ResetLeavesBare(s: State, a: Action)
    requires Inv(s) && Enabled(s, a)
    requires (s.clear == CReset && a == ClearStep) || (BehindReset(s.clear) && Bare(s))
    ensures Bare(Next(s, a))
  {
    StepKeepsInv(s, a);
  }

  /** Once clear has locked the first mutex it frees the tree before it ends, and nothing is set up then. */
  lemma {:induction false} ClearFrees(states: seq<State>, actions: seq<Action>, a: nat, b: nat) returns (k: nat)
    requires Run(states, actions) && a < b < |states| && Inv(states[a])
    requires states[a].clear == CReset || (states[a].clear == CLockM && Bare(states[a]))
      || (states[a].clear == CLockR && Bare(states[a]))
    requires states[b].clear == CIdle
    ensures a < k < b && states[k].clear == CFree && Bare(states[k])
    ensures states[k].mutex == ByClear && states[k].refreshMutex == ByClear
    decreases b - a
  {
    OneMoves(states, actions, 0, a);
    StepKeepsInv(states[a], actions[a]);
    if actions[a] == ClearStep || states[a].clear != CReset {
      ResetLeavesBare(states[a], actions[a]);
    }
    if states[a + 1].clear == CFree {
      k := a + 1;
    } else {
      k := ClearFrees(states, actions, a + 1, b);
    }
  }

  /** xh_core_clear: wherever it is before its reset, it frees the tree before it ends. */
  lemma {:induction false} ClearCall(states: seq<State>, actions: seq<Action>, a: nat, b: nat) returns (k: nat)
    requires Run(states, actions) && a < b < |states| && Inv(states[a])
    requires states[a].clear != CIdle && !BehindReset(states[a].clear) && states[b].clear == CIdle
    ensures a < k < b && states[k].clear == CFree && Bare(states[k])
    decreases b - a
  {
    if states[a].clear == CReset {
      k := ClearFrees(states, actions, a, b);
    } else {
      ClearMoves(states, actions, a);
      assert states[a + 1] == Next(states[a], actions[a]);
      StepKeepsInv(states[a], actions[a]);
      k := ClearCall(states, actions, a + 1, b);
    }
  }

  /** If there is a refresh thread it is joined before that. */
  lemma {:induction false} ClearJoins(states: seq<State>, actions: seq<Action>, a: nat, k: nat) returns (j: nat)
    requires Run(states, actions) && a < k < |states| && Inv(states[a])
    requires states[a].clear == CTestOk && states[a].asyncOk && states[k].clear == CFree
    ensures a < j < k && states[j].clear == CJoin && actions[j] == ClearStep && states[j].worker == WDone
    decreases k - a
  {
    OneMoves(states, actions, 0, a);
    StepKeepsInv(states[a], actions[a]);
    if states[a + 1].clear == CLock {
      j := JoinBefore(states, actions, a + 1, k);
    } else {
      j := ClearJoins(states, actions, a + 1, k);
    }
  }

  /** On the way to the join. */
  predicate Joining(pc: ClearPc) {
    pc.CLock? || pc.CStop? || pc.CSignal? || pc.CUnlock? || pc.CJoin?
  }

  /** From its first lock on clear does not get to the end without joining the thread. */
  lemma {:induction false} JoinBefore(states: seq<State>, actions: seq<Action>, a: nat, k: nat) returns (j: nat)
    requires Run(states, actions) && a < k < |states| && states[k].clear == CFree
    requires Joining(states[a].clear)
    ensures a <= j < k && states[j].clear == CJoin && actions[j] == ClearStep && states[j].worker == WDone
    decreases k - a
  {
    ClearMoves(states, actions, a);
    if states[a].clear == CJoin && actions[a] == ClearStep {
      j := a;
    } else {
      j := JoinBefore(states, actions, a + 1, k);
    }
  }

  /** And when it returns nothing is set up, so that the next call sets up everything again. */
  lemma {:induction false} ClearLeavesBare(states: seq<State>, actions: seq<Action>, k: nat, b: nat)
    requires Run(states, actions) && k < b < |states| && Inv(states[k]) && states[k].clear == CFree && Bare(states[k])
    requires states[b].clear == CIdle && forall j :: k <= j < b ==> states[j].clear != CIdle
    ensures Bare(states[b])
  {
    StaysBare(states, actions, k, b);
  }

  lemma {:induction false} StaysBare(states: seq<State>, actions: seq<Action>, k: nat, b: nat)
    requires Run(states, actions) && k <= b < |states| && Inv(states[k])
    requires BehindReset(states[k].clear) && Bare(states[k])
    requires forall j :: k <= j < b ==> states[j].clear != CIdle
    ensures Bare(states[b])
    decreases b - k
  {
    if k == b {
    } else {
      OneMoves(states, actions, 0, k);
      ResetLeavesBare(states[k], actions[k]);
      StepKeepsInv(states[k], actions[k]);
      if k + 1 < b {
        StaysBare(states, actions, k + 1, b);
      }
    }
  }
}
