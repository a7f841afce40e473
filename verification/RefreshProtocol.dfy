/**
 The threads around a refresh in `xh_core.c`: callers of xh_core_refresh, the refresh thread and one
 caller of xh_core_clear, one step at a time in any order.
 */
module RefreshProtocol {

  /** Who holds a mutex. */
  datatype Owner = NoOne | ByCaller(i: nat) | ByWorker | ByClear

  /** Where a caller of xh_core_refresh is; `async` is its argument. */
  datatype CallerPc = Idle | Init(async: bool, init: InitPc) | Async(start: AsyncPc) | Req(req: ReqPc)
    | Sync(sync: SyncPc)

  /** In xh_core_init_once, up to the check of its outcome. */
  datatype InitPc = ICheck | ILock | ITest | IHandler | IUnlock | IOk

  /** In xh_core_init_async_once, up to the check of its outcome. */
  datatype AsyncPc = ACheck | ALock | ATest | ACreate | ASetOk | AUnlock | AOk

  /** Making the request. */
  datatype ReqPc = RLock | RSet | RSignal | RUnlock

  /** Refreshing itself. */
  datatype SyncPc = SLock | SRefresh | SUnlock

  /** Where the refresh thread is; `WSleep` is inside pthread_cond_wait, `WWoken` behind its wake-up. */
  datatype WorkerPc = WNone | WTop | WLock | WLoop | WSleep | WWoken | WTest | WTake | WUnlock | WExit
    | WRLock | WRefresh | WRUnlock | WDone

  /** Where xh_core_clear is. */
  datatype ClearPc = CIdle | CTestOk | CLock | CStop | CSignal | CUnlock | CJoin | CNotOk | CReset
    | CLockM | CLockR | CFree | CUnlockR | CUnlockM

  /** `unserved` counts the requests since the refresh thread last started a refresh. */
  datatype State = State(
    mutex: Owner, refreshMutex: Owner, pending: bool, running: bool,
    inited: bool, initOk: bool, asyncInited: bool, asyncOk: bool,
    callers: seq<CallerPc>, worker: WorkerPc, clear: ClearPc, unserved: nat)

  /** A step of one thread; `ok` is what a system call in it returns, or which refresh an idle caller asks for. */
  datatype Action = CallerStep(i: nat, ok: bool) | WorkerStep | ClearStep | SpuriousWakeup

  function Initial(n: nat): State {
    State(NoOne, NoOne, false, false, false, false, false, false, seq(n, _ => Idle), WNone, CIdle, 0)
  }

  // ---------- holding and waiting ----------

  predicate CallerHolds(pc: CallerPc) {
    match pc
    case Idle => false
    case Init(_, p) => p.ITest? || p.IHandler? || p.IUnlock?
    case Async(p) => p.ATest? || p.ACreate? || p.ASetOk? || p.AUnlock?
    case Req(p) => !p.RLock?
    case Sync(_) => false
  }

  predicate CallerRefreshes(pc: CallerPc) {
    pc.Sync? && !pc.sync.SLock?
  }

  predicate WorkerHolds(pc: WorkerPc) {
    pc.WLoop? || pc.WTest? || pc.WTake? || pc.WUnlock? || pc.WExit?
  }

  predicate WorkerRefreshes(pc: WorkerPc) {
    pc.WRefresh? || pc.WRUnlock?
  }

  predicate ClearHolds(pc: ClearPc) {
    pc.CStop? || pc.CSignal? || pc.CUnlock? || pc.CLockR? || pc.CFree? || pc.CUnlockR? || pc.CUnlockM?
  }

  predicate ClearRefreshes(pc: ClearPc) {
    pc.CFree? || pc.CUnlockR?
  }

  /** The part of xh_core_refresh that may initialise: before a request or a synchronous refresh. */
  predicate Initialising(pc: CallerPc) {
    pc.Init? || pc.Async?
  }

  /**
   Whether a thread can take its step. Locking waits for the mutex, joining for the thread's end;
   clear begins when nobody is initialising, and nobody begins a refresh while it lasts.
   */
  predicate Enabled(s: State, a: Action) {
    match a
    case CallerStep(i, ok) =>
      i < |s.callers| &&
      (match s.callers[i]
       case Idle => s.clear.CIdle?
       case Init(_, p) => p.ILock? ==> s.mutex.NoOne?
       case Async(p) => p.ALock? ==> s.mutex.NoOne?
       case Req(p) => p.RLock? ==> s.mutex.NoOne?
       case Sync(p) => p.SLock? ==> s.refreshMutex.NoOne?)
    case WorkerStep =>
      (match s.worker
       case WNone => false
       case WLock => s.mutex.NoOne?
       case WSleep => false
       case WWoken => s.mutex.NoOne?
       case WRLock => s.refreshMutex.NoOne?
       case WDone => false
       case _ => true)
    case ClearStep =>
      (match s.clear
       case CIdle => forall i :: 0 <= i < |s.callers| ==> !Initialising(s.callers[i])
       case CLock => s.mutex.NoOne?
       case CJoin => s.worker.WDone?
       case CLockM => s.mutex.NoOne?
       case CLockR => s.refreshMutex.NoOne?
       case _ => true)
    case SpuriousWakeup => s.worker.WSleep?
  }

  // ---------- the steps ----------

  /** A mutex after a thread's step: taken or kept, given back, or not the thread's. */
  function Passed(owner: Owner, before: bool, after: bool, me: Owner): Owner {
    if after then me else if before then NoOne else owner
  }

  /** pthread_cond_signal: it wakes the refresh thread if it waits, and is lost otherwise. */
  function Signalled(pc: WorkerPc): WorkerPc {
    if pc.WSleep? then WWoken else pc
  }

  /** Where a caller goes from its place in xh_core_refresh and the functions it calls. */
  function CallerGoes(s: State, pc: CallerPc, ok: bool): CallerPc {
    match pc
    case Idle => Init(ok, ICheck)
    case Init(async, ICheck) => Init(async, if s.inited then IOk else ILock)
    case Init(async, ILock) => Init(async, ITest)
    case Init(async, ITest) => Init(async, if s.inited then IUnlock else IHandler)
    case Init(async, IHandler) => Init(async, IUnlock)
    case Init(async, IUnlock) => Init(async, IOk)
    case Init(async, IOk) => if !s.initOk then Idle else if async then Async(ACheck) else Sync(SLock)
    case Async(ACheck) => Async(if s.asyncInited then AOk else ALock)
    case Async(ALock) => Async(ATest)
    case Async(ATest) => Async(if s.asyncInited then AUnlock else ACreate)
    case Async(ACreate) => Async(if ok then ASetOk else AUnlock)
    case Async(ASetOk) => Async(AUnlock)
    case Async(AUnlock) => Async(AOk)
    case Async(AOk) => if s.asyncOk then Req(RLock) else Idle
    case Req(RLock) => Req(RSet)
    case Req(RSet) => Req(RSignal)
    case Req(RSignal) => Req(RUnlock)
    case Req(RUnlock) => Idle
    case Sync(SLock) => Sync(SRefresh)
    case Sync(SRefresh) => Sync(SUnlock)
    case Sync(SUnlock) => Idle
  }

  /** What a caller's step writes: an outcome `ok` is that of the signal handler or of pthread_create. */
  function CallerNext(s: State, i: nat, ok: bool): State
    requires i < |s.callers|
  {
    var pc, next := s.callers[i], CallerGoes(s, s.callers[i], ok);
    State(
      Passed(s.mutex, CallerHolds(pc), CallerHolds(next), ByCaller(i)),
      Passed(s.refreshMutex, CallerRefreshes(pc), CallerRefreshes(next), ByCaller(i)),
      s.pending || pc == Req(RSet),
      (s.running || next == Async(ACreate)) && !(pc == Async(ACreate) && !ok),
      s.inited || (pc.Init? && pc.init.ITest?),
      s.initOk || (pc.Init? && pc.init.IHandler? && ok),
      s.asyncInited || pc == Async(ATest),
      s.asyncOk || pc == Async(ASetOk),
      s.callers[i := next],
      if pc == Async(ACreate) && ok then WTop else if pc == Req(RSignal) then Signalled(s.worker) else s.worker,
      s.clear,
      if pc == Req(RSet) then s.unserved + 1 else s.unserved)
  }

  /** Where the refresh thread goes in xh_core_refresh_thread_func. */
  function WorkerGoes(s: State): WorkerPc {
    match s.worker
    case WNone => WNone
    case WTop => if s.running then WLock else WDone
    case WLock => WLoop
    case WLoop => if !s.pending && s.running then WSleep else WTest
    case WSleep => WSleep
    case WWoken => WLoop
    case WTest => if s.running then WTake else WExit
    case WTake => WUnlock
    case WUnlock => WRLock
    case WExit => WDone
    case WRLock => WRefresh
    case WRefresh => WRUnlock
    case WRUnlock => WTop
    case WDone => WDone
  }

  function WorkerNext(s: State): State {
    var next := WorkerGoes(s);
    s.(worker := next,
       mutex := Passed(s.mutex, WorkerHolds(s.worker), WorkerHolds(next), ByWorker),
       refreshMutex := Passed(s.refreshMutex, WorkerRefreshes(s.worker), WorkerRefreshes(next), ByWorker),
       pending := s.pending && !s.worker.WTake?,
       unserved := if s.worker.WRLock? then 0 else s.unserved)
  }

  /** Where xh_core_clear goes. */
  function ClearGoes(s: State): ClearPc {
    match s.clear
    case CIdle => CTestOk
    case CTestOk => if s.asyncOk then CLock else CReset
    case CLock => CStop
    case CStop => CSignal
    case CSignal => CUnlock
    case CUnlock => CJoin
    case CJoin => CNotOk
    case CNotOk => CReset
    case CReset => CLockM
    case CLockM => CLockR
    case CLockR => CFree
    case CFree => CUnlockR
    case CUnlockR => CUnlockM
    case CUnlockM => CIdle
  }

  function ClearNext(s: State): State {
    var next := ClearGoes(s);
    s.(clear := next,
       mutex := Passed(s.mutex, ClearHolds(s.clear), ClearHolds(next), ByClear),
       refreshMutex := Passed(s.refreshMutex, ClearRefreshes(s.clear), ClearRefreshes(next), ByClear),
       running := s.running && !s.clear.CStop?,
       worker := if s.clear.CSignal? then Signalled(s.worker) else if s.clear.CJoin? then WNone else s.worker,
       asyncOk := s.asyncOk && !s.clear.CNotOk?,
       asyncInited := s.asyncInited && !s.clear.CReset?,
       initOk := s.initOk && !s.clear.CReset?,
       inited := s.inited && !s.clear.CReset?)
  }

  function Next(s: State, a: Action): State
    requires Enabled(s, a)
  {
    match a
    case CallerStep(i, ok) => CallerNext(s, i, ok)
    case WorkerStep => WorkerNext(s)
    case ClearStep => ClearNext(s)
    case SpuriousWakeup => s.(worker := WWoken)
  }

  // ---------- the invariant ----------

  /** Each mutex is held exactly by the thread that is between its lock and its unlock. */
  ghost predicate Locks(s: State) {
    && (forall i :: 0 <= i < |s.callers| ==> (CallerHolds(s.callers[i]) <==> s.mutex == ByCaller(i)))
    && (forall i :: 0 <= i < |s.callers| ==> (CallerRefreshes(s.callers[i]) <==> s.refreshMutex == ByCaller(i)))
    && (WorkerHolds(s.worker) <==> s.mutex.ByWorker?) && (WorkerRefreshes(s.worker) <==> s.refreshMutex.ByWorker?)
    && (ClearHolds(s.clear) <==> s.mutex.ByClear?) && (ClearRefreshes(s.clear) <==> s.refreshMutex.ByClear?)
    && (s.mutex.ByCaller? ==> s.mutex.i < |s.callers|) && (s.refreshMutex.ByCaller? ==> s.refreshMutex.i < |s.callers|)
  }

  /** Someone holds the mutex and is about to signal. */
  ghost predicate SignalComing(s: State) {
    s.clear.CSignal? || (s.mutex.ByCaller? && s.mutex.i < |s.callers| && s.callers[s.mutex.i] == Req(RSignal))
  }

  /** Someone is between the creation of the thread and the note that it exists. */
  ghost predicate Creating(s: State) {
    s.mutex.ByCaller? && s.mutex.i < |s.callers| && s.callers[s.mutex.i] == Async(ASetOk)
  }

  ghost predicate AboutToCreate(s: State) {
    s.mutex.ByCaller? && s.mutex.i < |s.callers| && s.callers[s.mutex.i] == Async(ACreate)
  }

  /** There is one refresh thread at a time, and the flags know about it. */
  ghost predicate OneWorker(s: State) {
    && (!s.asyncInited ==> s.worker.WNone? && !s.running && !s.asyncOk)
    && (!s.worker.WNone? ==> s.asyncOk || Creating(s))
    && (AboutToCreate(s) ==> s.worker.WNone? && s.asyncInited) && (Creating(s) ==> !s.worker.WNone?)
    && (s.asyncOk && !s.clear.CNotOk? ==> !s.worker.WNone?)
    && (s.worker.WExit? || s.worker.WDone? ==> !s.running)
    && (s.running ==> !s.worker.WNone? || AboutToCreate(s))
  }

  /** While clear lasts nobody initialises; from its stop to its reset nothing runs. */
  ghost predicate Clearing(s: State) {
    && (!s.clear.CIdle? ==> forall i :: 0 <= i < |s.callers| ==> !Initialising(s.callers[i]))
    && (s.clear.CLock? || s.clear.CStop? || s.clear.CSignal? || s.clear.CUnlock? || s.clear.CJoin? ==> s.asyncOk)
    && (s.clear.CSignal? || s.clear.CUnlock? || s.clear.CJoin? || s.clear.CNotOk? || s.clear.CReset? ==> !s.running)
    && (s.clear.CNotOk? || s.clear.CReset? ==> s.worker.WNone?)
    && (s.clear.CReset? ==> !s.asyncOk)
  }

  /** A sleeping thread that no signal is on its way to has nothing to do and no reason to end. */
  ghost predicate NoLostWakeup(s: State) {
    s.worker.WSleep? && !SignalComing(s) ==> !s.pending && s.running
  }

  /** A request that no refresh has followed yet is noted, or taken by a refresh about to start. */
  ghost predicate NoLostRequest(s: State) {
    s.unserved > 0 ==> s.pending || s.worker.WUnlock? || s.worker.WRLock?
  }

  /** The refresh thread only takes a request that is there. */
  ghost predicate TakesRequests(s: State) {
    (s.worker.WTake? ==> s.pending) && (s.worker.WTest? && s.running ==> s.pending)
  }

  ghost predicate Inv(s: State) {
    Locks(s) && OneWorker(s) && Clearing(s) && NoLostWakeup(s) && NoLostRequest(s) && TakesRequests(s)
  }

  lemma InitialInv(n: nat)
    ensures Inv(Initial(n))
  {
  }

  // ---------- every step keeps it ----------

  /** One caller's place changes, and the mutexes with it. */
  lemma LocksPassed(s: State, i: nat, next: CallerPc)
    requires Locks(s) && i < |s.callers|
    requires CallerHolds(next) && !CallerHolds(s.callers[i]) ==> s.mutex.NoOne?
    requires CallerRefreshes(next) && !CallerRefreshes(s.callers[i]) ==> s.refreshMutex.NoOne?
    ensures Locks(s.(callers := s.callers[i := next],
                     mutex := Passed(s.mutex, CallerHolds(s.callers[i]), CallerHolds(next), ByCaller(i)),
                     refreshMutex := Passed(s.refreshMutex, CallerRefreshes(s.callers[i]), CallerRefreshes(next),
                                            ByCaller(i))))
  {
  }

  lemma CallerTakesFree(s: State, i: nat, ok: bool)
    requires Enabled(s, CallerStep(i, ok))
    ensures var pc, next := s.callers[i], CallerGoes(s, s.callers[i], ok);
            && (CallerHolds(next) && !CallerHolds(pc) ==> s.mutex.NoOne?)
            && (CallerRefreshes(next) && !CallerRefreshes(pc) ==> s.refreshMutex.NoOne?)
  {
  }

  lemma CallerLocks(s: State, i: nat, ok: bool)
    requires Locks(s) && OneWorker(s) && Enabled(s, CallerStep(i, ok))
    ensures Locks(CallerNext(s, i, ok))
  {
    CallerTakesFree(s, i, ok);
    LocksPassed(s, i, CallerGoes(s, s.callers[i], ok));
    if s.callers[i] == Async(ACreate) {
      assert s.mutex == ByCaller(i);
    }
  }

  lemma CallerFlags(s: State, i: nat, ok: bool)
    requires Locks(s) && OneWorker(s) && Clearing(s) && Enabled(s, CallerStep(i, ok))
    ensures OneWorker(CallerNext(s, i, ok))
  {
    CallerMarks(s, i, ok);
  }

  /** Whether the thread is being created changes only by the steps of who creates it. */
  lemma CallerMarks(s: State, i: nat, ok: bool)
    requires Locks(s) && Enabled(s, CallerStep(i, ok))
    ensures var t, pc, next := CallerNext(s, i, ok), s.callers[i], CallerGoes(s, s.callers[i], ok);
            && (AboutToCreate(t) <==> next == Async(ACreate) || (AboutToCreate(s) && pc != Async(ACreate)))
            && (Creating(t) <==> next == Async(ASetOk) || (Creating(s) && pc != Async(ASetOk)))
            && (pc == Async(ACreate) ==> AboutToCreate(s)) && (pc == Async(ASetOk) ==> Creating(s))
  {
    CallerTakesFree(s, i, ok);
  }

  lemma CallerClearing(s: State, i: nat, ok: bool)
    requires Clearing(s) && Enabled(s, CallerStep(i, ok))
    ensures Clearing(CallerNext(s, i, ok))
  {
  }

  lemma CallerLosesNothing(s: State, i: nat, ok: bool)
    requires Locks(s) && OneWorker(s) && NoLostWakeup(s) && NoLostRequest(s) && Enabled(s, CallerStep(i, ok))
    ensures NoLostWakeup(CallerNext(s, i, ok)) && NoLostRequest(CallerNext(s, i, ok))
  {
  }

  lemma CallerTakesRequests(s: State, i: nat, ok: bool)
    requires OneWorker(s) && TakesRequests(s) && Enabled(s, CallerStep(i, ok))
    ensures TakesRequests(CallerNext(s, i, ok))
  {
  }

  lemma WorkerLocks(s: State)
    requires Locks(s) && Enabled(s, WorkerStep)
    ensures Locks(WorkerNext(s))
  {
  }

  lemma WorkerFlags(s: State)
    requires OneWorker(s) && Locks(s) && Enabled(s, WorkerStep)
    ensures OneWorker(WorkerNext(s))
  {
  }

  lemma WorkerClearing(s: State)
    requires Clearing(s) && Enabled(s, WorkerStep)
    ensures Clearing(WorkerNext(s))
  {
  }

  lemma WorkerLosesNothing(s: State)
    requires NoLostWakeup(s) && NoLostRequest(s) && Enabled(s, WorkerStep)
    ensures NoLostWakeup(WorkerNext(s)) && NoLostRequest(WorkerNext(s))
  {
  }

  lemma ClearLocks(s: State)
    requires Locks(s) && Enabled(s, ClearStep)
    ensures Locks(ClearNext(s))
  {
  }

  lemma ClearFlags(s: State)
    requires OneWorker(s) && Clearing(s) && Enabled(s, ClearStep) && Locks(s)
    ensures OneWorker(ClearNext(s))
  {
  }

  lemma ClearClearing(s: State)
    requires OneWorker(s) && Clearing(s) && Enabled(s, ClearStep)
    ensures Clearing(ClearNext(s))
  {
  }

  lemma ClearLosesNothing(s: State)
    requires Locks(s) && Clearing(s) && NoLostWakeup(s) && NoLostRequest(s) && Enabled(s, ClearStep)
    ensures NoLostWakeup(ClearNext(s)) && NoLostRequest(ClearNext(s))
  {
  }

  lemma WakeupKeepsInv(s: State)
    requires Inv(s) && s.worker.WSleep?
    ensures Inv(s.(worker := WWoken))
  {
  }

  /** Every step of every thread keeps the invariant. */
  lemma StepKeepsInv(s: State, a: Action)
    requires Inv(s) && Enabled(s, a)
    ensures Inv(Next(s, a))
  {
    match a
    case CallerStep(i, ok) =>
      CallerLocks(s, i, ok);
      CallerFlags(s, i, ok);
      CallerClearing(s, i, ok);
      CallerLosesNothing(s, i, ok);
      CallerTakesRequests(s, i, ok);
    case WorkerStep =>
      WorkerLocks(s);
      WorkerFlags(s);
      WorkerClearing(s);
      WorkerLosesNothing(s);
    case ClearStep =>
      ClearLocks(s);
      ClearFlags(s);
      ClearClearing(s);
      ClearLosesNothing(s);
    case SpuriousWakeup => WakeupKeepsInv(s);
  }

  // ---------- runs ----------

  /** A run: what happens, and the states it leads through. */
  ghost predicate Run(states: seq<State>, actions: seq<Action>) {
    && |states| == |actions| + 1
    && forall k :: 0 <= k < |actions| ==> Enabled(states[k], actions[k]) && states[k + 1] == Next(states[k], actions[k])
  }

  /** The invariant holds all along every run. */
  lemma {:induction false} RunKeepsInv(states: seq<State>, actions: seq<Action>, n: nat, k: nat)
    requires Run(states, actions) && states[0] == Initial(n) && k < |states|
    ensures Inv(states[k])
  {
    if k == 0 {
      InitialInv(n);
    } else {
      RunKeepsInv(states, actions, n, k - 1);
      StepKeepsInv(states[k - 1], actions[k - 1]);
    }
  }

  /** Who works on the tree of known libraries: in xh_core_refresh_impl, or freeing it. */
  predicate Inside(s: State, who: Owner) {
    match who
    case NoOne => false
    case ByCaller(i) => i < |s.callers| && s.callers[i] == Sync(SRefresh)
    case ByWorker => s.worker.WRefresh?
    case ByClear => s.clear.CFree?
  }

  /** A refresh never runs twice at once, and never while the tree is freed. */
  lemma RefreshesExclude(states: seq<State>, actions: seq<Action>, n: nat, k: nat, a: Owner, b: Owner)
    requires Run(states, actions) && states[0] == Initial(n) && k < |states|
    requires Inside(states[k], a) && Inside(states[k], b)
    ensures a == b == states[k].refreshMutex
  {
    RunKeepsInv(states, actions, n, k);
  }

  /** A thread asleep with no signal coming means: nothing pending, every request followed, still running. */
  lemma SleepIsIdle(states: seq<State>, actions: seq<Action>, n: nat, k: nat)
    requires Run(states, actions) && states[0] == Initial(n) && k < |states|
    requires states[k].worker.WSleep? && states[k].mutex.NoOne?
    ensures !states[k].pending && states[k].running && states[k].unserved == 0
  {
    RunKeepsInv(states, actions, n, k);
  }

  /** Nobody is in the middle of anything. */
  ghost predicate AtRest(s: State) {
    && (forall i :: 0 <= i < |s.callers| ==> s.callers[i].Idle?) && s.clear.CIdle?
    && (s.worker.WNone? || s.worker.WSleep? || s.worker.WDone?)
  }

  /** A step that is not a new call and not a wake-up out of nothing. */
  predicate Proper(s: State, a: Action) {
    match a
    case CallerStep(i, ok) => i < |s.callers| && !s.callers[i].Idle?
    case WorkerStep => true
    case ClearStep => !s.clear.CIdle?
    case SpuriousWakeup => false
  }

  /** Whoever holds a mutex can go on, except clear while it waits for the second one. */
  lemma OwnerMoves(s: State) returns (a: Action)
    requires Inv(s) && (!s.refreshMutex.NoOne? || (!s.mutex.NoOne? && !s.clear.CLockR?))
    ensures Enabled(s, a) && Proper(s, a)
  {
    match if s.refreshMutex.NoOne? then s.mutex else s.refreshMutex
    case ByCaller(i) => a := CallerStep(i, true);
    case ByWorker => a := WorkerStep;
    case ByClear => a := ClearStep;
  }

  /** No deadlock: in every state the threads can get into, one that is not at rest can go on. */
  lemma SomeoneMoves(s: State) returns (a: Action)
    requires Inv(s) && !AtRest(s)
    ensures Enabled(s, a) && Proper(s, a)
  {
    if !s.refreshMutex.NoOne? || (!s.mutex.NoOne? && !s.clear.CLockR?) {
      a := OwnerMoves(s);
    } else if s.clear.CLockR? {
      a := ClearStep;
    } else if i :| 0 <= i < |s.callers| && !s.callers[i].Idle? {
      a := CallerStep(i, true);
    } else if s.clear.CJoin? && !s.worker.WDone? {
      a := WorkerStep;
    } else if !s.clear.CIdle? {
      a := ClearStep;
    } else {
      a := WorkerStep;
    }
  }

  // ---------- every request is followed by a refresh ----------

  /** At most how many steps of its own the refresh thread is away from starting the next refresh. */
  function Distance(pc: WorkerPc): nat {
    match pc
    case WRLock => 1
    case WUnlock => 2
    case WTake => 3
    case WTest => 4
    case WLoop => 5
    case WLock => 6
    case WWoken => 6
    case WTop => 7
    case WSleep => 7
    case WNone => 8
    case WRUnlock => 8
    case WRefresh => 9
    case WExit => 10
    case WDone => 10
  }

  /** While a request waits, each of the thread's steps brings the refresh nearer and no other step defers it. */
  lemma Nearer(s: State, a: Action)
    requires Inv(s) && Enabled(s, a) && s.unserved > 0 && s.running && Next(s, a).running
    ensures var t := Next(s, a);
            if t.unserved == 0 then a.WorkerStep? && s.worker.WRLock? && t.worker.WRefresh?
            else Distance(t.worker) < Distance(s.worker) || (!a.WorkerStep? && Distance(t.worker) <= Distance(s.worker))
  {
  }

  function WorkerSteps(actions: seq<Action>): nat {
    if actions == [] then 0 else (if actions[0].WorkerStep? then 1 else 0) + WorkerSteps(actions[1..])
  }

  /**
   Whatever the other threads do, a request that waits is followed by the start of a refresh before the
   refresh thread has taken nine more steps, as long as it is not told to stop.
   */
  lemma {:induction false} RequestServed(states: seq<State>, actions: seq<Action>) returns (k: nat)
    requires Run(states, actions) && Inv(states[0]) && states[0].unserved > 0
    requires forall j :: 0 <= j < |states| ==> states[j].running
    requires WorkerSteps(actions) >= Distance(states[0].worker)
    ensures k < |actions| && actions[k].WorkerStep? && states[k].worker.WRLock? && states[k + 1].worker.WRefresh?
    decreases |actions|
  {
    StoppedFar(states[0]);
    var s, a := states[0], actions[0];
    Nearer(s, a);
    StepKeepsInv(s, a);
    if states[1].unserved == 0 {
      k := 0;
    } else {
      RunTail(states, actions);
      k := RequestServed(states[1..], actions[1..]);
      k := k + 1;
    }
  }

  lemma StoppedFar(s: State)
    requires Inv(s) && s.running
    ensures 0 < Distance(s.worker) <= 9
  {
  }

  lemma RunTail(states: seq<State>, actions: seq<Action>)
    requires Run(states, actions) && actions != []
    ensures Run(states[1..], actions[1..])
  {
    forall k | 0 <= k < |actions| - 1
      ensures Enabled(states[1..][k], actions[1..][k]) && states[1..][k + 1] == Next(states[1..][k], actions[1..][k])
    {
      assert states[1..][k] == states[k + 1] && actions[1..][k] == actions[k + 1];
      assert states[1..][k + 1] == states[k + 2];
    }
  }

  /** How many steps of its own a holder is away from giving a mutex back. */
  function ToRelease(pc: CallerPc): nat {
    match pc
    case Init(_, ITest) => 3
    case Init(_, IHandler) => 2
    case Init(_, IUnlock) => 1
    case Async(ATest) => 4
    case Async(ACreate) => 3
    case Async(ASetOk) => 2
    case Async(AUnlock) => 1
    case Req(RSet) => 3
    case Req(RSignal) => 2
    case Req(RUnlock) => 1
    case Sync(SRefresh) => 2
    case Sync(SUnlock) => 1
    case _ => 0
  }

  /** A caller never waits while it holds a mutex, and each of its steps brings the release nearer. */
  lemma HolderReleases(s: State, i: nat, ok: bool)
    requires Inv(s) && (s.mutex == ByCaller(i) || s.refreshMutex == ByCaller(i))
    ensures Enabled(s, CallerStep(i, ok))
    ensures var t := CallerNext(s, i, ok);
            && ToRelease(t.callers[i]) < ToRelease(s.callers[i])
            && (ToRelease(t.callers[i]) == 0 ==> t.mutex != ByCaller(i) && t.refreshMutex != ByCaller(i))
  {
    match s.callers[i]
    case Idle =>
    case Init(_, p) =>
    case Async(p) =>
    case Req(p) =>
    case Sync(p) =>
  }

  // ---------- clear ends ----------

  /** Steps clear has left; the signal counts for the steps it may make the refresh thread take. */
  function ClearLeft(pc: ClearPc): nat {
    match pc
    case CIdle => 0
    case CTestOk => 18
    case CLock => 17
    case CStop => 16
    case CSignal => 15
    case CUnlock => 9
    case CJoin => 8
    case CNotOk => 7
    case CReset => 6
    case CLockM => 5
    case CLockR => 4
    case CFree => 3
    case CUnlockR => 2
    case CUnlockM => 1
  }

  /** Steps a caller has left that does not initialise; a request counts for the refresh it causes. */
  function CallerLeft(pc: CallerPc): nat {
    match pc
    case Req(RLock) => 18
    case Req(RSet) => 17
    case Req(RSignal) => 7
    case Req(RUnlock) => 1
    case Sync(SLock) => 3
    case Sync(SRefresh) => 2
    case Sync(SUnlock) => 1
    case _ => 0
  }

  function CallersLeft(callers: seq<CallerPc>): nat {
    if callers == [] then 0 else CallerLeft(callers[0]) + CallersLeft(callers[1..])
  }

  /** Steps the refresh thread has left before it sleeps or ends, if no request is taken on the way. */
  function WorkerLeft(pc: WorkerPc): nat {
    match pc
    case WUnlock => 10
    case WRLock => 9
    case WRefresh => 8
    case WRUnlock => 7
    case WTop => 6
    case WLock => 5
    case WWoken => 5
    case WLoop => 4
    case WTest => 3
    case WTake => 2
    case WExit => 1
    case WSleep => 0
    case WDone => 0
    case WNone => 0
  }

  /** The work all threads together have left while clear lasts; a pending request is one more refresh. */
  function Left(s: State): nat {
    ClearLeft(s.clear) + CallersLeft(s.callers) + WorkerLeft(s.worker) + if s.pending then 9 else 0
  }

  lemma {:induction false} CallersLeftUpdate(callers: seq<CallerPc>, i: nat, pc: CallerPc)
    requires i < |callers|
    ensures CallersLeft(callers[i := pc]) + CallerLeft(callers[i]) == CallersLeft(callers) + CallerLeft(pc)
  {
    var next := callers[i := pc];
    if i == 0 {
      assert next[1..] == callers[1..];
    } else {
      assert next[1..] == callers[1..][i - 1 := pc];
      CallersLeftUpdate(callers[1..], i - 1, pc);
    }
  }

  lemma CallerShortens(s: State, i: nat, ok: bool)
    requires Clearing(s) && !s.clear.CIdle? && Enabled(s, CallerStep(i, ok))
    ensures Left(CallerNext(s, i, ok)) < Left(s)
  {
    var pc, next := s.callers[i], CallerGoes(s, s.callers[i], ok);
    CallersLeftUpdate(s.callers, i, next);
    assert pc.Req? || pc.Sync?;
  }

  lemma WorkerShortens(s: State)
    requires TakesRequests(s) && Enabled(s, WorkerStep)
    ensures Left(WorkerNext(s)) < Left(s)
  {
  }

  lemma ClearShortens(s: State)
    requires !s.clear.CIdle? && Enabled(s, ClearStep)
    ensures Left(ClearNext(s)) < Left(s)
  {
  }

  /** While clear lasts every step of every thread takes work away; only a spurious wake-up adds some. */
  lemma StepShortens(s: State, a: Action)
    requires Inv(s) && !s.clear.CIdle? && Enabled(s, a)
    ensures if a.SpuriousWakeup? then Left(Next(s, a)) == Left(s) + 5 else Left(Next(s, a)) < Left(s)
  {
    match a
    case CallerStep(i, ok) => CallerShortens(s, i, ok);
    case WorkerStep => WorkerShortens(s);
    case ClearStep => ClearShortens(s);
    case SpuriousWakeup =>
  }

  function Wakeups(actions: seq<Action>): nat {
    if actions == [] then 0 else (if actions[0].SpuriousWakeup? then 1 else 0) + Wakeups(actions[1..])
  }

  lemma {:induction false} LeftBound(callers: seq<CallerPc>)
    ensures CallersLeft(callers) <= 18 * |callers|
  {
    if callers == [] {
    } else {
      LeftBound(callers[1..]);
    }
  }

  /** As long as clear lasts, the steps taken are paid for by the work that was left. */
  lemma {:induction false} ClearRun(states: seq<State>, actions: seq<Action>)
    requires Run(states, actions) && Inv(states[0])
    requires forall k :: 0 <= k < |actions| ==> !states[k].clear.CIdle?
    ensures |actions| + Left(states[|actions|]) <= Left(states[0]) + 6 * Wakeups(actions)
    ensures Inv(states[|actions|])
    decreases |actions|
  {
    if actions == [] {
    } else {
      StepShortens(states[0], actions[0]);
      StepKeepsInv(states[0], actions[0]);
      RunTail(states, actions);
      forall k | 0 <= k < |actions[1..]|
        ensures !states[1..][k].clear.CIdle?
      {
        assert states[1..][k] == states[k + 1];
      }
      ClearRun(states[1..], actions[1..]);
      assert states[1..][|actions| - 1] == states[|actions|];
    }
  }

  /**
   Clear ends: once it has begun, all threads together take at most 37 steps, 18 for each caller and 6 for
   each spurious wake-up before it is over, and until then one of them can always take a step.
   */
  lemma ClearEnds(states: seq<State>, actions: seq<Action>) returns (a: Action)
    requires Run(states, actions) && Inv(states[0])
    requires forall k :: 0 <= k < |states| ==> !states[k].clear.CIdle?
    ensures |actions| <= 37 + 18 * |states[0].callers| + 6 * Wakeups(actions)
    ensures Enabled(states[|actions|], a) && Proper(states[|actions|], a)
  {
    ClearRun(states, actions);
    LeftBound(states[0].callers);
    a := SomeoneMoves(states[|actions|]);
  }
}
