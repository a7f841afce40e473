/** The shrink controller: the timer task of `_Patrons.java` over the region space of `patrons_core.c`. */
module Shrink {
  import opened Bits

  const MB: nat := 0x10_0000
  const REGION_SIZE: nat := 0x4_0000
  const MAX_CHECK_OF_STRICT_MODE: nat := 5

  // ---------- the region space ----------

  /** The words of ART's region space that are read and written; `used` is `non_free_region_index_limit_`. */
  datatype Region = Region(begin: nat, end: nat, limit: nat, numRegions: nat, used: nat)

  ghost predicate Sound(r: Region) {
    r.begin <= r.end <= r.limit && r.numRegions == (r.limit - r.begin) / REGION_SIZE && r.used <= r.numRegions
  }

  /** NonGrowthLimitCapacity */
  function Size(r: Region): int {
    r.limit - r.begin
  }

  /** What an allocator or a collector that takes the lock may do. */
  predicate Allocates(r: Region, t: Region) {
    && t.begin == r.begin && t.limit == r.limit && t.numRegions == r.numRegions
    && t.used <= t.numRegions && t.begin <= t.end <= t.limit
  }

  /** ClampGrowthLimit__, which checks the used part again under the lock. */
  function Clamped(r: Region, capacity: nat): Region {
    if capacity <= r.used * REGION_SIZE then r
    else
      r.(numRegions := capacity / REGION_SIZE, limit := r.begin + capacity,
         end := if r.end - r.begin > capacity then r.begin + capacity else r.end)
  }

  /** Whatever the capacity, clamping leaves a sound region space that still holds the regions in use. */
  lemma ClampSound(r: Region, capacity: nat)
    requires Sound(r)
    ensures Sound(Clamped(r, capacity))
    ensures Size(Clamped(r, capacity)) == if capacity > r.used * REGION_SIZE then capacity else Size(r)
  {
  }

  /** What is written, in bytes: nothing where the capacity does not exceed the regions in use, of 256 KB each. */
  lemma ClampMeans(r: Region, capacity: nat)
    ensures var t := Clamped(r, capacity);
            && t.begin == r.begin && t.used == r.used
            && (capacity <= r.used * 262144 ==> t == r)
            && (capacity > r.used * 262144 ==>
                  && t.limit == r.begin + capacity && t.numRegions == capacity / 262144
                  && t.end == if r.end <= r.begin + capacity then r.end else r.begin + capacity)
  {
  }

  /** The checks of ResizeRegionSpace, made without the lock. */
  predicate Allowed(r: Region, newSize: int) {
    newSize > 0 && newSize <= Size(r) && newSize > r.used * REGION_SIZE
  }

  class RegionSpace {
    var begin: nat
    var end: nat
    var limit: nat
    var numRegions: nat
    var used: nat

    function View(): Region
      reads this
    {
      Region(begin, end, limit, numRegions, used)
    }

    /** ClampGrowthLimit__: the space stays sound, and gets the capacity exactly if that holds more than is in use. */
    method ClampGrowthLimit(newCapacity: nat)
      modifies this
      ensures old(Sound(View())) ==> Sound(View())
      ensures begin == old(begin) && used == old(used)
      ensures if newCapacity > old(used) * REGION_SIZE then Size(View()) == newCapacity else View() == old(View())
      ensures View() == Clamped(old(View()), newCapacity)
    {
      if newCapacity > used * REGION_SIZE {
        numRegions := newCapacity / REGION_SIZE;
        limit := begin + newCapacity;
        if end - begin > newCapacity {
          end := limit;
        }
      }
    }

    /** ResizeRegionSpace; `other` is what the allocator has left between the checks and the lock. */
    method ResizeRegionSpace(newSize: int, other: Region) returns (ok: bool)
      requires Allocates(View(), other)
      modifies this
      ensures ok == Allowed(old(View()), newSize)
      ensures View() == if ok then Clamped(other, newSize) else old(View())
      ensures old(Sound(View())) ==> Sound(View()) && Size(View()) <= Size(old(View()))
    {
      if newSize <= 0 {
        return false;
      }
      if newSize > limit - begin {
        return false;
      }
      if newSize > used * REGION_SIZE {
        end, used := other.end, other.used;
        ClampGrowthLimit(newSize);
      } else {
        return false;
      }
      return true;
    }
  }

  // ---------- the Java side ----------

  /** `protect` is whether the native side catches faults, and then reports success in any case. */
  datatype Config = Config(lowerLimit: int, shrinkStep: int, periodOfCheck: nat, protect: bool)

  /** The periodic timer, by its period in seconds. */
  datatype Timer = NoTimer | Every(seconds: nat)

  /** The static fields of `_Patrons`; `current` is in megabytes. */
  datatype Java = Java(current: int, strictCount: nat, timer: Timer, auto: bool)

  function Started(j: Java, period: nat): Java {
    if j.auto then j.(timer := Every(period)) else j
  }

  function InBackground(j: Java): Java {
    if j.auto then j.(timer := NoTimer) else j
  }

  function ToForeground(c: Config, j: Java): Java {
    Started(j.(strictCount := 0), c.periodOfCheck)
  }

  function Stopped(j: Java): Java {
    InBackground(j).(auto := false)
  }

  /** The first lines of the timer task: after five checks the strict mode ends. */
  function Counted(c: Config, j: Java): Java {
    if j.strictCount == 0 then j
    else if j.strictCount + 1 > MAX_CHECK_OF_STRICT_MODE then Started(j.(strictCount := 0), c.periodOfCheck)
    else j.(strictCount := j.strictCount + 1)
  }

  /** What a run of the timer task does before it calls the native side, and whether it does. */
  datatype Begun = Begun(java: Java, shrinks: bool)

  /** `over` is whether the virtual memory in use is over the threshold. */
  function Begin(c: Config, j: Java, over: bool, size: int): Begun {
    var k := Counted(c, j);
    if k.current - c.shrinkStep < c.lowerLimit then Begun(Stopped(k), false)
    else if over then Begun(k.(current := k.current - c.shrinkStep), true)
    else if size / MB < c.lowerLimit then Begun(Stopped(k), false)
    else Begun(k, false)
  }

  /** What it does with the answer. */
  function End(c: Config, j: Java, ok: bool): Java {
    if ok || c.protect then Started(j.(strictCount := 1), c.periodOfCheck / 2) else Stopped(j)
  }

  /** What one run of the task leaves; `other` is what the allocator has made of the space before the lock. */
  datatype Ended = Ended(java: Java, region: Region)

  function Task(c: Config, j: Java, over: bool, r: Region, other: Region): Ended {
    var b := Begin(c, j, over, Size(r));
    var ok := Allowed(r, b.java.current * MB);
    if !b.shrinks then Ended(b.java, r)
    else Ended(End(c, b.java, ok), if ok then Clamped(other, b.java.current * MB) else r)
  }

  /** A period whose half is one that a timer can have. */
  ghost predicate Usable(c: Config) {
    c.shrinkStep > 0 && c.periodOfCheck >= 2
  }

  /** The mode and the timer agree. */
  ghost predicate ModeAgrees(c: Config, j: Java) {
    && j.strictCount <= MAX_CHECK_OF_STRICT_MODE
    && (j.timer == NoTimer || j.timer == Every(if j.strictCount > 0 then c.periodOfCheck / 2 else c.periodOfCheck))
    && (!j.auto ==> j.timer == NoTimer)
  }

  /** One run keeps the agreement and the soundness, and never grows the space. */
  lemma TaskKeeps(c: Config, j: Java, over: bool, r: Region, other: Region)
    requires Allocates(r, other)
    ensures ModeAgrees(c, j) ==> ModeAgrees(c, Task(c, j, over, r, other).java)
    ensures Sound(r) ==> Sound(Task(c, j, over, r, other).region) && Size(Task(c, j, over, r, other).region) <= Size(r)
  {
    var n := Begin(c, j, over, Size(r)).java.current * MB;
    if Sound(r) && Allowed(r, n) {
      ClampSound(other, n);
    }
  }

  /** When a run of the task asks for a shrink, when it stops the controller, and what size it stores. */
  lemma TaskDecides(c: Config, j: Java, over: bool, r: Region, other: Region)
    requires j.auto
    ensures var t, low := Task(c, j, over, r, other).java, j.current - c.shrinkStep < c.lowerLimit;
            && t.current == (if over && !low then j.current - c.shrinkStep else j.current)
            && (t.auto <==>
                  && !low
                  && (over ==> c.protect || Allowed(r, (j.current - c.shrinkStep) * 1048576))
                  && (!over ==> Size(r) / 1048576 >= c.lowerLimit))
            && (!t.auto ==> t.timer == NoTimer)
  {
  }

  /** What one run of the task finds. */
  datatype Finding = Finding(over: bool, region: Region, other: Region)

  /** A run of the task that asks for no shrink and does not stop the controller. */
  ghost predicate Quiet(c: Config, j: Java, f: Finding, k: Java) {
    k == Task(c, j, f.over, f.region, f.other).java && k.auto && !f.over
  }

  ghost predicate QuietRuns(c: Config, javas: seq<Java>, found: seq<Finding>) {
    |javas| == |found| + 1 && forall k :: 0 <= k < |found| ==> Quiet(c, javas[k], found[k], javas[k + 1])
  }

  lemma QuietStep(c: Config, j: Java, f: Finding, k: Java)
    requires Quiet(c, j, f, k)
    ensures k.strictCount == if 0 < j.strictCount < 5 then j.strictCount + 1 else 0
    ensures k.timer == if j.strictCount >= 5 then Every(c.periodOfCheck) else j.timer
  {
  }

  /** After a shrink the next four checks come at half the period, and the fifth brings the full period back. */
  lemma {:induction false} StrictLasts(c: Config, javas: seq<Java>, found: seq<Finding>, n: nat)
    requires QuietRuns(c, javas, found) && n < |javas|
    requires javas[0].strictCount == 1 && javas[0].timer == Every(c.periodOfCheck / 2)
    ensures javas[n].strictCount == (if n < 5 then n + 1 else 0)
    ensures javas[n].timer == Every(if n < 5 then c.periodOfCheck / 2 else c.periodOfCheck)
  {
    if n == 0 {
    } else {
      var k := n - 1;
      StrictLasts(c, javas, found, k);
      assert Quiet(c, javas[k], found[k], javas[k + 1]);
      QuietStep(c, javas[k], found[k], javas[k + 1]);
    }
  }

  const ERROR_READ_VSS_FAILED := 1001
  const HEAP_SIZE_IS_NOT_BIG_ENOUGH := 2002
  const LOWER_LIMIT_IS_TOO_SMALL := 2003

  class Patrons {
    const config: Config
    var current: int
    var strictCount: nat
    var timer: Timer
    var auto: bool

    function View(): Java
      reads this
    {
      Java(current, strictCount, timer, auto)
    }

    constructor (config: Config, auto: bool)
      ensures this.config == config && View() == Java(0, 0, NoTimer, auto)
    {
      this.config, this.auto := config, auto;
      current, strictCount, timer := 0, 0, NoTimer;
    }

    /**
     The checks of __init after the native side is set up; `vss` is the size read, or negative. Success
     leaves a state the interleavings below start from.
     */
    method Init(space: RegionSpace, vss: int) returns (code: int)
      requires space.begin <= space.limit
      modifies this
      ensures current == Size(space.View()) / MB
      ensures code == if current <= 0 || current > 1024 then HEAP_SIZE_IS_NOT_BIG_ENOUGH
                      else if current < config.lowerLimit then LOWER_LIMIT_IS_TOO_SMALL
                      else if old(auto) && vss < 0 then ERROR_READ_VSS_FAILED
                      else 0
      ensures code == 0 && Sound(space.View()) && old(timer) == NoTimer && old(strictCount) == 0 ==>
                Initial(config, State(space.View(), View(), Idle, 0))
      ensures auto == old(auto) && (code != 0 ==> timer == old(timer) && strictCount == old(strictCount))
    {
      current := (space.limit - space.begin) / MB;
      if current <= 0 || current > 1024 {
        return HEAP_SIZE_IS_NOT_BIG_ENOUGH;
      }
      if current < config.lowerLimit {
        return LOWER_LIMIT_IS_TOO_SMALL;
      }
      if auto {
        if vss < 0 {
          return ERROR_READ_VSS_FAILED;
        }
        Foreground();
      }
      return 0;
    }

    /** inBackground: in automatic mode nothing runs any more, and the mode and the timer still agree. */
    method Background()
      modifies this
      ensures current == old(current) && strictCount == old(strictCount) && auto == old(auto)
      ensures timer == if auto then NoTimer else old(timer)
      ensures old(ModeAgrees(config, View())) ==> ModeAgrees(config, View()) && timer == NoTimer
      ensures View() == InBackground(old(View()))
    {
      if auto && timer != NoTimer {
        timer := NoTimer;
      }
    }

    /** toForeground: whatever the mode was, it agrees with the timer afterwards. */
    method Foreground()
      modifies this
      ensures current == old(current) && auto == old(auto) && strictCount == 0
      ensures timer == if auto then Every(config.periodOfCheck) else old(timer)
      ensures old(auto || timer == NoTimer) ==> ModeAgrees(config, View())
      ensures View() == ToForeground(config, old(View()))
    {
      strictCount := 0;
      Start(config.periodOfCheck);
    }

    method Start(period: nat)
      modifies this
      ensures current == old(current) && strictCount == old(strictCount) && auto == old(auto)
      ensures timer == if auto then Every(period) else old(timer)
    {
      if auto {
        if timer != NoTimer {
          timer := NoTimer;
        }
        timer := Every(period);
      }
    }

    /** stop: from any state in which the mode and the timer agree, no timer is left and none can start. */
    method Stop()
      modifies this
      ensures current == old(current) && strictCount == old(strictCount) && !auto
      ensures timer == if old(auto) then NoTimer else old(timer)
      ensures old(ModeAgrees(config, View())) ==> ModeAgrees(config, View()) && timer == NoTimer
    {
      Background();
      auto := false;
    }

    /** The first lines of AutoCheckerTask.run: after five checks the full period is back. */
    method Count()
      modifies this
      ensures View() == Counted(config, old(View()))
      ensures old(ModeAgrees(config, View())) ==> ModeAgrees(config, View())
    {
      if strictCount != 0 {
        strictCount := strictCount + 1;
        if strictCount > MAX_CHECK_OF_STRICT_MODE {
          strictCount := 0;
          Start(config.periodOfCheck);
        }
      }
    }

    /**
     AutoCheckerTask.run. The size to shrink to is stored before the attempt, whatever comes of it. The
     space stays sound and never grows, and the mode and the timer agree afterwards as before.
     */
    method Run(space: RegionSpace, over: bool, other: Region)
      requires Allocates(space.View(), other)
      modifies this, space
      ensures Ended(View(), space.View()) == Task(config, old(View()), over, old(space.View()), other)
      ensures old(Sound(space.View())) ==> Sound(space.View()) && Size(space.View()) <= Size(old(space.View()))
      ensures old(ModeAgrees(config, View())) ==> ModeAgrees(config, View())
    {
      TaskKeeps(config, View(), over, space.View(), other);
      Count();
      if current - config.shrinkStep < config.lowerLimit {
        Stop();
        return;
      }
      if over {
        current := current - config.shrinkStep;
        var resizeResult := space.ResizeRegionSpace(current * MB, other);
        if config.protect {
          resizeResult := true;
        }
        if !resizeResult {
          Stop();
          return;
        }
        strictCount := 1;
        Start(config.periodOfCheck / 2);
      } else if (space.limit - space.begin) / MB < config.lowerLimit {
        Stop();
      }
    }
  }

  // ---------- every interleaving ----------

  /** Where a run of the timer task is: outside, about to check, between check and lock, about to return. */
  datatype Pc = Idle | Checking | Clamping | Returning(ok: bool)

  /** `attempts` counts the shrinks asked for. */
  datatype State = State(region: Region, java: Java, pc: Pc, attempts: nat)

  datatype Action =
    | Allocate(other: Region)
    | Foreground
    | Background
    | Tick(over: bool)
    | Check
    | Clamp
    | Return

  /** The foreground and background calls do not overlap a run of the task; the allocator runs any time. */
  predicate Enabled(s: State, a: Action) {
    match a
    case Allocate(other) => Allocates(s.region, other)
    case Foreground => s.pc.Idle?
    case Background => s.pc.Idle?
    case Tick(_) => s.pc.Idle? && s.java.timer != NoTimer
    case Check => s.pc.Checking?
    case Clamp => s.pc.Clamping? && s.java.current >= 0
    case Return => s.pc.Returning?
  }

  function Next(c: Config, s: State, a: Action): State
    requires Enabled(s, a)
  {
    match a
    case Allocate(other) => s.(region := other)
    case Foreground => s.(java := ToForeground(c, s.java))
    case Background => s.(java := InBackground(s.java))
    case Tick(over) =>
      var b := Begin(c, s.java, over, Size(s.region));
      if b.shrinks then State(s.region, b.java, Checking, s.attempts + 1) else s.(java := b.java)
    case Check => s.(pc := if Allowed(s.region, s.java.current * MB) then Clamping else Returning(false))
    case Clamp => s.(region := Clamped(s.region, s.java.current * MB), pc := Returning(true))
    case Return => s.(java := End(c, s.java, s.pc.ok), pc := Idle)
  }

  /** The actions lead from one state to the other, each enabled in its turn. */
  ghost predicate Leads(c: Config, s: State, actions: seq<Action>, t: State)
    decreases |actions|
  {
    if actions == [] then s == t
    else Enabled(s, actions[0]) && Leads(c, Next(c, s, actions[0]), actions[1..], t)
  }

  /** The steps a run of the task takes, with the allocator between the check and the lock. */
  function Script(c: Config, s: State, over: bool, other: Region): seq<Action> {
    var b := Begin(c, s.java, over, Size(s.region));
    if !b.shrinks then [Tick(over)]
    else if Allowed(s.region, b.java.current * MB) then [Tick(over), Check, Allocate(other), Clamp, Return]
    else [Tick(over), Check, Return]
  }

  /** The method `Patrons.Run`, whose outcome is `Task`, is exactly those steps of the interleaving. */
  lemma RunIsSteps(c: Config, s: State, over: bool, other: Region)
    requires s.pc.Idle? && s.java.timer != NoTimer && Allocates(s.region, other)
    ensures var b, e := Begin(c, s.java, over, Size(s.region)), Task(c, s.java, over, s.region, other);
            Leads(c, s, Script(c, s, over, other),
                  State(e.region, e.java, Idle, if b.shrinks then s.attempts + 1 else s.attempts))
  {
    var b, e := Begin(c, s.java, over, Size(s.region)), Task(c, s.java, over, s.region, other);
    var t := State(e.region, e.java, Idle, if b.shrinks then s.attempts + 1 else s.attempts);
    var ticked := Next(c, s, Tick(over));
    if !b.shrinks {
      LeadsOne(c, s, Tick(over), [], t);
    } else if Allowed(s.region, b.java.current * MB) {
      var checked := Next(c, ticked, Check);
      var used := Next(c, checked, Allocate(other));
      var clamped := Next(c, used, Clamp);
      LeadsOne(c, clamped, Return, [], t);
      LeadsOne(c, used, Clamp, [Return], t);
      LeadsOne(c, checked, Allocate(other), [Clamp, Return], t);
      LeadsOne(c, ticked, Check, [Allocate(other), Clamp, Return], t);
      LeadsOne(c, s, Tick(over), [Check, Allocate(other), Clamp, Return], t);
      assert [Tick(over)] + [Check, Allocate(other), Clamp, Return] == Script(c, s, over, other);
    } else {
      var checked := Next(c, ticked, Check);
      LeadsOne(c, checked, Return, [], t);
      LeadsOne(c, ticked, Check, [Return], t);
      LeadsOne(c, s, Tick(over), [Check, Return], t);
    }
  }

  lemma LeadsOne(c: Config, s: State, a: Action, more: seq<Action>, t: State)
    requires Enabled(s, a) && Leads(c, Next(c, s, a), more, t)
    ensures Leads(c, s, [a] + more, t)
  {
    assert ([a] + more)[1..] == more;
  }

  /** After a successful initialisation. */
  ghost predicate Initial(c: Config, s: State) {
    && Sound(s.region) && s.pc.Idle? && s.attempts == 0 && s.java.current == Size(s.region) / MB
    && c.lowerLimit <= s.java.current
    && s.java == ToForeground(c, s.java)
    && (!s.java.auto ==> s.java.timer == NoTimer)
  }

  /** What a number of steps takes off. */
  function Spent(attempts: nat, step: int): int {
    if attempts == 0 then 0 else Spent(attempts - 1, step) + step
  }

  lemma {:induction false} SpentIsProduct(attempts: nat, step: int)
    ensures Spent(attempts, step) == attempts * step
  {
    if attempts == 0 {
    } else {
      SpentIsProduct(attempts - 1, step);
    }
  }

  ghost predicate Inv(c: Config, s: State) {
    && Sound(s.region) && ModeAgrees(c, s.java)
    && c.lowerLimit * MB <= Size(s.region) && s.java.current * MB <= Size(s.region)
    && c.lowerLimit <= s.java.current
    && (!s.pc.Idle? ==> s.java.timer != NoTimer)
    && (s.pc.Clamping? ==> s.java.current > 0)
  }

  /** Each shrink asked for has taken one step off the stored size. */
  ghost predicate Accounted(c: Config, s: State, initial: int) {
    s.java.current == initial - Spent(s.attempts, c.shrinkStep)
  }

  lemma InitialInv(c: Config, s: State)
    requires Usable(c) && Initial(c, s)
    ensures Inv(c, s) && Accounted(c, s, s.java.current)
  {
  }

  lemma StepKeepsCount(c: Config, s: State, a: Action, initial: int)
    requires Accounted(c, s, initial) && Enabled(s, a)
    ensures Accounted(c, Next(c, s, a), initial)
  {
  }

  lemma StepKeepsInv(c: Config, s: State, a: Action)
    requires Usable(c) && Inv(c, s) && Enabled(s, a)
    ensures Inv(c, Next(c, s, a))
  {
    match a
    case Clamp => ClampSound(s.region, s.java.current * MB);
    case _ =>
  }

  ghost predicate Runs(c: Config, states: seq<State>, actions: seq<Action>) {
    && |states| == |actions| + 1 && Initial(c, states[0])
    && forall k :: 0 <= k < |actions| ==>
         Enabled(states[k], actions[k]) && states[k + 1] == Next(c, states[k], actions[k])
  }

  lemma {:induction false} RunKeepsInv(c: Config, states: seq<State>, actions: seq<Action>, k: nat)
    requires Usable(c) && Runs(c, states, actions) && k < |states|
    ensures Inv(c, states[k]) && Accounted(c, states[k], states[0].java.current)
  {
    if k == 0 {
      InitialInv(c, states[0]);
    } else {
      RunKeepsInv(c, states, actions, k - 1);
      StepKeepsInv(c, states[k - 1], actions[k - 1]);
      StepKeepsCount(c, states[k - 1], actions[k - 1], states[0].java.current);
    }
  }

  /** The region space never falls below the lower limit, always holds the regions in use, and is sound. */
  lemma RegionSafe(c: Config, states: seq<State>, actions: seq<Action>, k: nat)
    requires Usable(c) && Runs(c, states, actions) && k < |states|
    ensures var r := states[k].region;
            && Size(r) >= c.lowerLimit * MB && r.used <= r.numRegions
            && r.begin <= r.end <= r.limit && r.numRegions == (r.limit - r.begin) / REGION_SIZE
  {
    RunKeepsInv(c, states, actions, k);
  }

  /** It never grows either, and is only ever set to the size the controller has stored. */
  lemma OnlyShrinks(c: Config, states: seq<State>, actions: seq<Action>, k: nat)
    requires Usable(c) && Runs(c, states, actions) && k < |actions|
    ensures var r, t := states[k].region, states[k + 1].region;
            Size(t) == Size(r) || (actions[k].Clamp? && Size(t) == states[k].java.current * MB < Size(r))
  {
    RunKeepsInv(c, states, actions, k);
    var s := states[k];
    if actions[k].Clamp? {
      ClampSound(s.region, s.java.current * MB);
    }
  }

  /** Two of the controller's safety nets are never needed: the size is neither too small nor asked to grow. */
  lemma NetsUnused(c: Config, states: seq<State>, actions: seq<Action>, k: nat)
    requires Usable(c) && Runs(c, states, actions) && k < |states|
    ensures Size(states[k].region) / MB >= c.lowerLimit
    ensures states[k].java.current * MB <= Size(states[k].region)
  {
    RunKeepsInv(c, states, actions, k);
  }

  lemma BoundByDivision(n: nat, step: int, room: int)
    requires step > 0 && n * step <= room
    ensures n <= room / step
  {
    var d := n - room / step;
    assert d * step == n * step - (room / step) * step;
    if d >= 1 {
      MultipleGrows(d, step);
    }
  }

  /** The shrinks asked for are at most as many as steps fit between the first size and the lower limit. */
  lemma AttemptsBounded(c: Config, states: seq<State>, actions: seq<Action>, k: nat)
    requires Usable(c) && Runs(c, states, actions) && k < |states|
    ensures states[k].attempts <= (states[0].java.current - c.lowerLimit) / c.shrinkStep
  {
    RunKeepsInv(c, states, actions, k);
    SpentIsProduct(states[k].attempts, c.shrinkStep);
    BoundByDivision(states[k].attempts, c.shrinkStep, states[0].java.current - c.lowerLimit);
  }

  /** A timer that runs has the half period exactly in strict mode. */
  lemma HalfPeriodIffStrict(c: Config, states: seq<State>, actions: seq<Action>, k: nat)
    requires Usable(c) && Runs(c, states, actions) && k < |states| && states[k].java.timer != NoTimer
    ensures states[k].java.timer == Every(c.periodOfCheck / 2) <==> 1 <= states[k].java.strictCount <= 5
    ensures states[k].java.timer == Every(c.periodOfCheck) <==> states[k].java.strictCount == 0
  {
    RunKeepsInv(c, states, actions, k);
  }

  /** Once the controller stops it stays stopped: no timer, no shrink. */
  lemma {:induction false} StopsForGood(c: Config, states: seq<State>, actions: seq<Action>, j: nat, k: nat)
    requires Usable(c) && Runs(c, states, actions) && j <= k < |states| && !states[j].java.auto
    ensures !states[k].java.auto && states[k].java.timer == NoTimer && states[k].pc.Idle?
    ensures states[k].attempts == states[j].attempts && Size(states[k].region) == Size(states[j].region)
  {
    RunKeepsInv(c, states, actions, k);
    if j < k {
      StopsForGood(c, states, actions, j, k - 1);
    }
  }

  /** The runs of the task that found the memory over the threshold. */
  function OverTicks(actions: seq<Action>): nat {
    if actions == [] then 0
    else OverTicks(actions[..|actions| - 1]) + if actions[|actions| - 1] == Tick(true) then 1 else 0
  }

  /** Each such run asks for a shrink, except one, which stops the controller. */
  lemma {:induction false} OverTicksCounted(c: Config, states: seq<State>, actions: seq<Action>, k: nat)
    requires Usable(c) && Runs(c, states, actions) && k < |states|
    ensures OverTicks(actions[..k]) <= states[k].attempts + if states[k].java.auto then 0 else 1
    ensures OverTicks(actions[..k]) <= (states[0].java.current - c.lowerLimit) / c.shrinkStep + 1
    decreases k
  {
    AttemptsBounded(c, states, actions, k);
    if k > 0 {
      OverTicksCounted(c, states, actions, k - 1);
      RunKeepsInv(c, states, actions, k - 1);
      assert actions[..k][..k - 1] == actions[..k - 1];
      var s := states[k - 1];
      assert Enabled(s, actions[k - 1]) && states[k] == Next(c, s, actions[k - 1]);
    }
  }

  /** The task goes on as after a shrink: automatic mode stays, and strict mode begins. */
  predicate Reported(c: Config, j: Java) {
    j.auto && j.strictCount == 1 && j.timer == Every(c.periodOfCheck / 2)
  }

  /**
   A shrink can be reported although nothing was shrunk, for every configuration exactly in these
   cases: in protected mode, when the first check refuses it, since the refusal is not passed on; and
   in any mode, when what is in use has reached the new size between that check and the lock. A
   shrink to the size the space has already changes nothing either.
   */
  lemma SilentFailure(c: Config, j: Java, over: bool, r: Region, other: Region)
    requires Begin(c, j, over, Size(r)).shrinks && j.auto && Allocates(r, other)
    ensures var n, e := Begin(c, j, over, Size(r)).java.current * MB, Task(c, j, over, r, other);
            && (Reported(c, e.java) && Size(e.region) == Size(r) <==>
                  || (c.protect && !Allowed(r, n))
                  || (Allowed(r, n) && (n <= other.used * REGION_SIZE || n == Size(r))))
            && (Reported(c, e.java) && Size(e.region) != n <==>
                  && n != Size(r)
                  && ((c.protect && !Allowed(r, n)) || (Allowed(r, n) && n <= other.used * REGION_SIZE)))
  {
  }

  /** The protected case: 2000 of 2048 regions in use, and nothing changes between check and lock. */
  lemma RefusedButReported()
    ensures var c, r := Config(384, 100, 30, true), Region(0, 512 * MB, 512 * MB, 2048, 2000);
            var j := Java(512, 0, Every(30), true);
            && Sound(r) && ModeAgrees(c, j) && Begin(c, j, true, Size(r)).shrinks
            && Task(c, j, true, r, r) == Ended(Java(412, 1, Every(15), true), r)
  {
    assert !Allowed(Region(0, 512 * MB, 512 * MB, 2048, 2000), 412 * MB);
  }

  /** The race: allowed with 400 regions in use, which are 1700 when the lock is taken. */
  lemma OvertakenButReported()
    ensures var c, r := Config(384, 100, 30, false), Region(0, 512 * MB, 512 * MB, 2048, 400);
            var j, other := Java(512, 0, Every(30), true), r.(used := 1700);
            && Sound(r) && ModeAgrees(c, j) && Allocates(r, other) && Begin(c, j, true, Size(r)).shrinks
            && Task(c, j, true, r, other) == Ended(Java(412, 1, Every(15), true), other)
  {
    assert Allowed(Region(0, 512 * MB, 512 * MB, 2048, 400), 412 * MB);
  }
}
