/**
  The blocking queue as a protocol: any number of threads, every critical section
  one step, condition variables that may wake a thread for no reason.
*/
module QueueProtocol {

  datatype Side = Pushers | Poppers

  datatype Job<T> = Push(x: T) | Pop {
    function Side(): Side { if Push? then Pushers else Poppers }
  }

  datatype Outcome<T> = NotYet | Pushed | Popped(x: T) | Retry | Done | Error | TimedOut | Interrupted | Terminated

  /** Where a thread is. */
  datatype Phase<T> =
    | Idle(outcome: Outcome<T>)
    | Ready(job: Job<T>, timeout: int)   // past the unlocked test of `terminated`, about to lock
    | Parked(job: Job<T>, timed: bool)   // waiting for its condition
    | Woken(job: Job<T>, timed: bool)    // waiting for the mutex after a wakeup
    | Expired(job: Job<T>)               // waiting for the mutex after a timeout
    | Turned(job: Job<T>)                // unlocked again with nothing done
    | Closing                            // between the two critical sections of a termination

  type Tid = nat

  datatype State<T> = State(
    contents: seq<T>, bounds: nat, fullWaiters: nat, emptyWaiters: nat, terminated: bool,
    threads: map<Tid, Phase<T>>,
    pushed: seq<T>, popped: seq<T>, closed: bool)

  datatype Label<T> =
    | Call(t: Tid, job: Job<T>, timeout: int)
    | Enter(t: Tid, wake: Tid)
    | Resume(t: Tid, wake: Tid)
    | GiveUp(t: Tid)
    | Timeout(t: Tid)
    | Late(t: Tid)                       // a timeout is reported to a thread that was woken already
    | Spurious(t: Tid)
    | Interrupt(t: Tid)
    | TermFirst(t: Tid)
    | TermSecond(t: Tid)

  // ------------------------------------------------------------------- steps

  ghost predicate Blocked<T>(s: State<T>, side: Side) {
    match side
    case Pushers => |s.contents| == s.bounds
    case Poppers => s.contents == []
  }

  ghost function Waiters<T>(s: State<T>, side: Side): (n: nat) {
    match side
    case Pushers => s.fullWaiters
    case Poppers => s.emptyWaiters
  }

  ghost function WithWaiters<T>(s: State<T>, side: Side, n: nat): (r: State<T>) {
    match side
    case Pushers => s.(fullWaiters := n)
    case Poppers => s.(emptyWaiters := n)
  }

  ghost function Put<T>(s: State<T>, t: Tid, p: Phase<T>): (r: State<T>) {
    s.(threads := s.threads[t := p])
  }

  function Opposite(side: Side): (r: Side) {
    if side == Pushers then Poppers else Pushers
  }

  /** A signal wakes a thread that is parked on the condition, if there is one. */
  ghost function Signalled<T>(s: State<T>, side: Side, wake: Tid): (r: State<T>) {
    if Waiters(s, side) != 0 && wake in StageSet(s.threads, side, AtParked)
    then Put(s, wake, Woken(s.threads[wake].job, s.threads[wake].timed))
    else s
  }

  /** The data has moved, nobody has been told yet. */
  ghost function Delivered<T>(s: State<T>, t: Tid, job: Job<T>): (r: State<T>)
    requires !Blocked(s, job.Side())
  {
    match job
    case Push(x) => Put(s.(contents := s.contents + [x], pushed := s.pushed + [x]), t, Idle(Pushed))
    case Pop => Put(s.(contents := s.contents[1..], popped := s.popped + [s.contents[0]]), t,
      Idle(Popped(s.contents[0])))
  }

  /** The data moves and the other side is told. */
  ghost function Served<T>(s: State<T>, t: Tid, job: Job<T>, wake: Tid): (r: State<T>)
    requires !Blocked(s, job.Side())
  {
    Signalled(Delivered(s, t, job), Opposite(job.Side()), wake)
  }

  ghost function WakeAll<T>(threads: map<Tid, Phase<T>>): (r: map<Tid, Phase<T>>) {
    map t | t in threads :: if threads[t].Parked? then Woken(threads[t].job, threads[t].timed) else threads[t]
  }

  ghost predicate Enabled<T>(s: State<T>, l: Label<T>) {
    l.t in s.threads &&
    var p := s.threads[l.t];
    match l
    case Call(_, _, _) => p.Idle?
    case Enter(_, wake) => p.Ready? && SignalsSomeone(s, Opposite(p.job.Side()), wake)
    case Resume(_, wake) => p.Expired? || (p.Woken? && SignalsSomeone(s, Opposite(p.job.Side()), wake))
    case GiveUp(_) => p.Turned?
    case Timeout(_) => p.Parked? && p.timed
    case Late(_) => p.Woken? && p.timed
    case Spurious(_) => p.Parked?
    case Interrupt(_) => p.Idle?
    case TermFirst(_) => p.Idle?
    case TermSecond(_) => p.Closing?
  }

  /** A signal may not be ignored while some thread is parked. */
  ghost predicate SignalsSomeone<T>(s: State<T>, side: Side, wake: Tid) {
    Size(s.threads, side, AtParked) == 0 || wake in StageSet(s.threads, side, AtParked)
  }

  /** What a thread does when it holds the mutex again after its wait. */
  ghost function Resumed<T>(s: State<T>, t: Tid, wake: Tid): (r: State<T>)
    requires t in s.threads && (s.threads[t].Woken? || s.threads[t].Expired?) && Counted(s)
  {
    StageMember(s.threads, t);
    var p := s.threads[t];
    var s1 := WithWaiters(s, p.job.Side(), Waiters(s, p.job.Side()) - 1);
    if p.Expired? then Put(s1, t, Idle(TimedOut))
    else if Blocked(s1, p.job.Side()) then Put(s1, t, Turned(p.job))
    else Served(s1, t, p.job, wake)
  }

  ghost function Next<T>(s: State<T>, l: Label<T>): (r: State<T>)
    requires Enabled(s, l) && Counted(s)
  {
    var p := s.threads[l.t];
    match l
    case Call(t, job, timeout) =>
      if s.terminated then Put(s, t, Idle(Done)) else Put(s, t, Ready(job, timeout))
    case Enter(t, wake) =>
      if !Blocked(s, p.job.Side()) then Served(s, t, p.job, wake)
      else if p.timeout == 0 then Put(s, t, Idle(Retry))
      else if s.terminated then Put(s, t, Turned(p.job))
      else WithWaiters(Put(s, t, Parked(p.job, p.timeout > 0)), p.job.Side(), Waiters(s, p.job.Side()) + 1)
    case Resume(t, wake) => Resumed(s, t, wake)
    case GiveUp(t) => Put(s, t, Idle(if s.terminated then Done else Error))
    case Timeout(t) => Put(s, t, Expired(p.job))
    case Late(t) => Put(s, t, Expired(p.job))
    case Spurious(t) => Put(s, t, Woken(p.job, p.timed))
    case Interrupt(t) => Put(s.(threads := WakeAll(s.threads)), t, Idle(Interrupted))
    case TermFirst(t) => Put(s.(terminated := true), t, Closing)
    case TermSecond(t) => Put(s.(threads := WakeAll(s.threads), closed := true), t, Idle(Terminated))
  }

  // ---------------------------------------------------------------- invariant

  datatype Stage = AtParked | AtWoken | AtExpired

  ghost predicate Within<T>(p: Phase<T>, side: Side, stage: Stage) {
    match stage
    case AtParked => p.Parked? && p.job.Side() == side
    case AtWoken => p.Woken? && p.job.Side() == side
    case AtExpired => p.Expired? && p.job.Side() == side
  }

  ghost function StageSet<T>(threads: map<Tid, Phase<T>>, side: Side, stage: Stage): (r: set<Tid>) {
    set t | t in threads && Within(threads[t], side, stage)
  }

  ghost function Size<T>(threads: map<Tid, Phase<T>>, side: Side, stage: Stage): (n: nat) {
    |StageSet(threads, side, stage)|
  }

  /** The waiter counters count the threads between their two updates. */
  ghost predicate CountedOn<T>(s: State<T>, side: Side) {
    Waiters(s, side) ==
      Size(s.threads, side, AtParked) + Size(s.threads, side, AtWoken) + Size(s.threads, side, AtExpired)
  }

  ghost predicate Counted<T>(s: State<T>) {
    CountedOn(s, Pushers) && CountedOn(s, Poppers)
  }

  /** How many threads of a side could be served at once. */
  ghost function Available<T>(s: State<T>, side: Side): (n: int) {
    match side
    case Pushers => s.bounds - |s.contents|
    case Poppers => |s.contents|
  }

  /** While a thread stays parked, everything it could have is already promised to woken threads. */
  ghost predicate NoLostWakeup<T>(s: State<T>, side: Side) {
    Size(s.threads, side, AtParked) > 0 ==> Available(s, side) <= Size(s.threads, side, AtWoken)
  }

  /** Once termination is complete, nobody is parked. */
  ghost predicate ClosedEmpty<T>(s: State<T>) {
    s.closed ==> s.terminated && Size(s.threads, Pushers, AtParked) == 0 && Size(s.threads, Poppers, AtParked) == 0
  }

  ghost predicate ClosingTerminated<T>(s: State<T>) {
    forall t :: t in s.threads && s.threads[t].Closing? ==> s.terminated
  }

  /** The queue is a bounded first-in first-out channel. */
  ghost predicate Fifo<T>(s: State<T>) {
    s.bounds > 0 && |s.contents| <= s.bounds && s.pushed == s.popped + s.contents
  }

  ghost predicate Prompt<T>(s: State<T>) {
    NoLostWakeup(s, Pushers) && NoLostWakeup(s, Poppers)
  }

  /** What holds in every run and, if `prompt`, that no wakeup has been lost. */
  ghost predicate Inv<T>(s: State<T>, prompt: bool) {
    Fifo(s) && Counted(s) && ClosedEmpty(s) && ClosingTerminated(s) && (prompt ==> Prompt(s))
  }

  lemma StageMember<T>(threads: map<Tid, Phase<T>>, t: Tid)
    requires t in threads && (threads[t].Woken? || threads[t].Expired?)
    ensures var side := threads[t].job.Side(); Size(threads, side, AtWoken) + Size(threads, side, AtExpired) > 0
  {
    var side := threads[t].job.Side();
    assert t in StageSet(threads, side, AtWoken) || t in StageSet(threads, side, AtExpired);
  }

  lemma MovedSet<T>(threads: map<Tid, Phase<T>>, t: Tid, p: Phase<T>, side: Side, stage: Stage)
    requires t in threads
    ensures StageSet(threads[t := p], side, stage)
         == StageSet(threads, side, stage) - {t} + (if Within(p, side, stage) then {t} else {})
  {
  }

  lemma SwapSize(a: set<Tid>, t: Tid, keep: bool)
    ensures |a - {t} + (if keep then {t} else {})| == |a| - (if t in a then 1 else 0) + (if keep then 1 else 0)
  {
    if t in a {
      assert |a - {t}| == |a| - 1;
    } else {
      assert a - {t} == a;
    }
    if keep {
      assert |a - {t} + {t}| == |a - {t}| + 1;
    } else {
      assert a - {t} + {} == a - {t};
    }
  }

  /** Moving one thread moves it from the stage it leaves to the one it enters. */
  lemma Moved<T>(threads: map<Tid, Phase<T>>, t: Tid, p: Phase<T>, side: Side, stage: Stage)
    requires t in threads
    ensures Size(threads[t := p], side, stage) == Size(threads, side, stage)
              - (if Within(threads[t], side, stage) then 1 else 0) + (if Within(p, side, stage) then 1 else 0)
  {
    MovedSet(threads, t, p, side, stage);
    SwapSize(StageSet(threads, side, stage), t, Within(p, side, stage));
  }

  /** The six sizes after moving one thread. */
  lemma MovedAll<T>(threads: map<Tid, Phase<T>>, t: Tid, p: Phase<T>)
    requires t in threads
    ensures forall side, stage :: Size(threads[t := p], side, stage) == Size(threads, side, stage)
              - (if Within(threads[t], side, stage) then 1 else 0) + (if Within(p, side, stage) then 1 else 0)
  {
    forall side, stage ensures Size(threads[t := p], side, stage) == Size(threads, side, stage)
              - (if Within(threads[t], side, stage) then 1 else 0) + (if Within(p, side, stage) then 1 else 0)
    {
      Moved(threads, t, p, side, stage);
    }
  }

  lemma WokenAll<T>(threads: map<Tid, Phase<T>>, side: Side)
    ensures Size(WakeAll(threads), side, AtParked) == 0
    ensures Size(WakeAll(threads), side, AtWoken) == Size(threads, side, AtParked) + Size(threads, side, AtWoken)
    ensures Size(WakeAll(threads), side, AtExpired) == Size(threads, side, AtExpired)
  {
    var m := WakeAll(threads);
    assert StageSet(m, side, AtParked) == {};
    assert StageSet(m, side, AtWoken) == StageSet(threads, side, AtParked) + StageSet(threads, side, AtWoken);
    assert StageSet(threads, side, AtParked) !! StageSet(threads, side, AtWoken);
    assert StageSet(m, side, AtExpired) == StageSet(threads, side, AtExpired);
  }

  // -------------------------------------------------------------- preservation

  /** One item or one free slot more than is promised to the woken threads of `side`. */
  ghost predicate OneToPromise<T>(s: State<T>, side: Side, prompt: bool) {
    && Fifo(s) && Counted(s) && ClosedEmpty(s) && ClosingTerminated(s)
    && (prompt ==> NoLostWakeup(s, Opposite(side)))
    && (prompt && Size(s.threads, side, AtParked) > 0 ==> Available(s, side) <= Size(s.threads, side, AtWoken) + 1)
  }

  /** A signal promises the new item to a parked thread. */
  lemma SignalKeeps<T>(s: State<T>, side: Side, wake: Tid, prompt: bool)
    requires OneToPromise(s, side, prompt) && SignalsSomeone(s, side, wake)
    ensures Inv(Signalled(s, side, wake), prompt)
  {
    if wake in StageSet(s.threads, side, AtParked) {
      assert Size(s.threads, side, AtParked) > 0;
      MovedAll(s.threads, wake, Woken(s.threads[wake].job, s.threads[wake].timed));
    }
  }

  /** Thread `t` is about to be served: it has left the count of the waiters if it was woken. */
  ghost predicate AtService<T>(s: State<T>, t: Tid, job: Job<T>, prompt: bool) {
    && t in s.threads && (s.threads[t].Ready? || s.threads[t].Woken?) && s.threads[t].job == job
    && Fifo(s) && ClosedEmpty(s) && ClosingTerminated(s) && (prompt ==> Prompt(s))
    && CountedOn(s, Opposite(job.Side()))
    && Waiters(s, job.Side()) + (if s.threads[t].Woken? then 1 else 0)
       == Size(s.threads, job.Side(), AtParked) + Size(s.threads, job.Side(), AtWoken) + Size(s.threads, job.Side(),
         AtExpired)
  }

  lemma PushDelivered<T>(s: State<T>, t: Tid, x: T, prompt: bool)
    requires AtService(s, t, Push(x), prompt) && !Blocked(s, Pushers)
    ensures OneToPromise(Delivered(s, t, Push(x)), Poppers, prompt)
  {
    var p: Phase<T> := Idle(Pushed);
    assert Within(s.threads[t], Pushers, AtWoken) <==> s.threads[t].Woken?;
    Moved(s.threads, t, p, Pushers, AtParked);
    Moved(s.threads, t, p, Pushers, AtWoken);
    Moved(s.threads, t, p, Pushers, AtExpired);
    Moved(s.threads, t, p, Poppers, AtParked);
    Moved(s.threads, t, p, Poppers, AtWoken);
    Moved(s.threads, t, p, Poppers, AtExpired);
    assert s.popped + (s.contents + [x]) == s.pushed + [x];
  }

  lemma PopDelivered<T>(s: State<T>, t: Tid, prompt: bool)
    requires AtService(s, t, Pop, prompt) && !Blocked(s, Poppers)
    ensures OneToPromise(Delivered(s, t, Pop), Pushers, prompt)
  {
    var p := Idle(Popped(s.contents[0]));
    assert Within(s.threads[t], Poppers, AtWoken) <==> s.threads[t].Woken?;
    Moved(s.threads, t, p, Pushers, AtParked);
    Moved(s.threads, t, p, Pushers, AtWoken);
    Moved(s.threads, t, p, Pushers, AtExpired);
    Moved(s.threads, t, p, Poppers, AtParked);
    Moved(s.threads, t, p, Poppers, AtWoken);
    Moved(s.threads, t, p, Poppers, AtExpired);
    assert (s.popped + [s.contents[0]]) + s.contents[1..] == s.pushed;
  }

  lemma StillParked<T>(s: State<T>, t: Tid, job: Job<T>, side: Side)
    requires t in s.threads && (s.threads[t].Ready? || s.threads[t].Woken?) && !Blocked(s, job.Side())
    ensures StageSet(Delivered(s, t, job).threads, side, AtParked) == StageSet(s.threads, side, AtParked)
  {
    MovedSet(s.threads, t, Delivered(s, t, job).threads[t], side, AtParked);
  }

  lemma ServedKeeps<T>(s: State<T>, t: Tid, job: Job<T>, wake: Tid, prompt: bool)
    requires AtService(s, t, job, prompt) && !Blocked(s, job.Side())
    requires SignalsSomeone(s, Opposite(job.Side()), wake)
    ensures Inv(Served(s, t, job, wake), prompt)
  {
    match job {
      case Push(x) => PushDelivered(s, t, x, prompt);
      case Pop => PopDelivered(s, t, prompt);
    }
    StillParked(s, t, job, Opposite(job.Side()));
    SignalKeeps(Delivered(s, t, job), Opposite(job.Side()), wake, prompt);
  }

  /** A step that moves one thread between places where nobody waits. */
  lemma PutKeeps<T>(s: State<T>, t: Tid, p: Phase<T>, prompt: bool)
    requires Inv(s, prompt) && t in s.threads && !Within(s.threads[t], Pushers, AtWoken)
    requires !Within(s.threads[t], Poppers, AtWoken)
    requires p.Idle? || p.Ready? || p.Turned? || (p.Closing? && s.terminated) ||
             (s.threads[t].Parked? && (p == Woken(s.threads[t].job,
               s.threads[t].timed) || p == Expired(s.threads[t].job)))
    requires s.threads[t].Parked? ==> p.Woken? || p.Expired?
    requires !s.threads[t].Expired?
    ensures Inv(Put(s, t, p), prompt)
  {
    MovedAll(s.threads, t, p);
  }

  /** A thread that finds the queue blocked and may wait is counted and parks. */
  lemma ParkKeeps<T>(s: State<T>, t: Tid, timed: bool, prompt: bool)
    requires Inv(s, prompt) && t in s.threads && s.threads[t].Ready?
    requires Blocked(s, s.threads[t].job.Side()) && !s.terminated
    ensures var job := s.threads[t].job;
            Inv(WithWaiters(Put(s, t, Parked(job, timed)), job.Side(), Waiters(s, job.Side()) + 1), prompt)
  {
    var job := s.threads[t].job;
    MovedAll(s.threads, t, Parked(job, timed));
  }

  lemma EnterKeeps<T>(s: State<T>, t: Tid, wake: Tid, prompt: bool)
    requires Inv(s, prompt) && Enabled(s, Enter(t, wake))
    ensures Inv(Next(s, Enter(t, wake)), prompt)
  {
    var p := s.threads[t];
    if !Blocked(s, p.job.Side()) {
      ServedKeeps(s, t, p.job, wake, prompt);
    } else if p.timeout == 0 {
      PutKeeps(s, t, Idle(Retry), prompt);
    } else if s.terminated {
      PutKeeps(s, t, Turned(p.job), prompt);
    } else {
      ParkKeeps(s, t, p.timeout > 0, prompt);
    }
  }

  lemma PusherLeaves<T>(s: State<T>, t: Tid, p: Phase<T>, prompt: bool)
    requires Inv(s, prompt) && t in s.threads && (p.Idle? || p.Turned?)
    requires s.threads[t].Expired? || (s.threads[t].Woken? && Blocked(s, Pushers))
    requires s.threads[t].job.Side() == Pushers && Waiters(s, Pushers) > 0
    ensures Inv(Put(WithWaiters(s, Pushers, Waiters(s, Pushers) - 1), t, p), prompt)
  {
    Moved(s.threads, t, p, Pushers, AtParked);
    Moved(s.threads, t, p, Pushers, AtWoken);
    Moved(s.threads, t, p, Pushers, AtExpired);
    Moved(s.threads, t, p, Poppers, AtParked);
    Moved(s.threads, t, p, Poppers, AtWoken);
    Moved(s.threads, t, p, Poppers, AtExpired);
  }

  lemma PopperLeaves<T>(s: State<T>, t: Tid, p: Phase<T>, prompt: bool)
    requires Inv(s, prompt) && t in s.threads && (p.Idle? || p.Turned?)
    requires s.threads[t].Expired? || (s.threads[t].Woken? && Blocked(s, Poppers))
    requires s.threads[t].job.Side() == Poppers && Waiters(s, Poppers) > 0
    ensures Inv(Put(WithWaiters(s, Poppers, Waiters(s, Poppers) - 1), t, p), prompt)
  {
    Moved(s.threads, t, p, Pushers, AtParked);
    Moved(s.threads, t, p, Pushers, AtWoken);
    Moved(s.threads, t, p, Pushers, AtExpired);
    Moved(s.threads, t, p, Poppers, AtParked);
    Moved(s.threads, t, p, Poppers, AtWoken);
    Moved(s.threads, t, p, Poppers, AtExpired);
  }

  /** A woken or expired thread that is not served leaves the count of the waiters. */
  lemma LeaveKeeps<T>(s: State<T>, t: Tid, side: Side, p: Phase<T>, prompt: bool)
    requires Inv(s, prompt) && t in s.threads && (p.Idle? || p.Turned?)
    requires s.threads[t].Expired? || (s.threads[t].Woken? && Blocked(s, side))
    requires side == s.threads[t].job.Side() && Waiters(s, side) > 0
    ensures Inv(Put(WithWaiters(s, side, Waiters(s, side) - 1), t, p), prompt)
  {
    match side
    case Pushers => PusherLeaves(s, t, p, prompt);
    case Poppers => PopperLeaves(s, t, p, prompt);
  }

  /** A thread that holds the mutex again after a wakeup stands as one that just came. */
  lemma WokenAtService<T>(s: State<T>, t: Tid, prompt: bool)
    requires Inv(s, prompt) && t in s.threads && s.threads[t].Woken?
    ensures var job := s.threads[t].job;
            Waiters(s, job.Side()) > 0 && AtService(WithWaiters(s, job.Side(), Waiters(s, job.Side()) - 1), t, job,
              prompt)
  {
    StageMember(s.threads, t);
  }

  lemma ResumeLeaves<T>(s: State<T>, t: Tid, wake: Tid, prompt: bool)
    requires Inv(s, prompt) && t in s.threads
    requires s.threads[t].Expired? || (s.threads[t].Woken? && Blocked(s, s.threads[t].job.Side()))
    ensures Inv(Resumed(s, t, wake), prompt)
  {
    var p := s.threads[t];
    StageMember(s.threads, t);
    LeaveKeeps(s, t, p.job.Side(), if p.Expired? then Idle(TimedOut) else Turned(p.job), prompt);
  }

  lemma ResumeServes<T>(s: State<T>, t: Tid, wake: Tid, prompt: bool)
    requires Inv(s, prompt) && t in s.threads && s.threads[t].Woken? && !Blocked(s, s.threads[t].job.Side())
    requires SignalsSomeone(s, Opposite(s.threads[t].job.Side()), wake)
    ensures Inv(Resumed(s, t, wake), prompt)
  {
    var p := s.threads[t];
    WokenAtService(s, t, prompt);
    ServedKeeps(WithWaiters(s, p.job.Side(), Waiters(s, p.job.Side()) - 1), t, p.job, wake, prompt);
  }

  lemma ResumeKeeps<T>(s: State<T>, t: Tid, wake: Tid, prompt: bool)
    requires Inv(s, prompt) && Enabled(s, Resume(t, wake))
    ensures Inv(Next(s, Resume(t, wake)), prompt)
  {
    if s.threads[t].Expired? || Blocked(s, s.threads[t].job.Side()) {
      ResumeLeaves(s, t, wake, prompt);
    } else {
      ResumeServes(s, t, wake, prompt);
    }
  }

  lemma WakeAllKeeps<T>(s: State<T>, prompt: bool)
    requires Inv(s, prompt)
    ensures Inv(s.(threads := WakeAll(s.threads)), prompt)
    ensures s.terminated ==> Inv(s.(threads := WakeAll(s.threads), closed := true), prompt)
  {
    WokenAll(s.threads, Pushers);
    WokenAll(s.threads, Poppers);
  }

  /**
    A thread that was woken may time out and not take what it was promised: there is
    another thread for it, or nobody needs it.
  */
  ghost predicate Harmless<T>(s: State<T>, t: Tid)
    requires t in s.threads && s.threads[t].Woken?
  {
    var side := s.threads[t].job.Side();
    Size(s.threads, side, AtParked) == 0 || Available(s, side) < Size(s.threads, side, AtWoken)
  }

  lemma LateKeeps<T>(s: State<T>, t: Tid, prompt: bool)
    requires Inv(s, prompt) && Enabled(s, Late(t)) && (prompt ==> Harmless(s, t))
    ensures Inv(Next(s, Late(t)), prompt)
  {
    MovedAll(s.threads, t, Expired(s.threads[t].job));
  }

  /** That is exactly when no wakeup is lost. */
  lemma LateExactly<T>(s: State<T>, t: Tid)
    requires Inv(s, true) && Enabled(s, Late(t))
    ensures Inv(Next(s, Late(t)), true) <==> Harmless(s, t)
  {
    MovedAll(s.threads, t, Expired(s.threads[t].job));
  }

  lemma NextKeeps<T>(s: State<T>, l: Label<T>, prompt: bool)
    requires Inv(s, prompt) && Enabled(s, l) && (prompt && l.Late? ==> Harmless(s, l.t))
    ensures Inv(Next(s, l), prompt)
  {
    var p := s.threads[l.t];
    match l
    case Call(t, job, timeout) => PutKeeps(s, t, if s.terminated then Idle(Done) else Ready(job, timeout), prompt);
    case Enter(t, wake) => EnterKeeps(s, t, wake, prompt);
    case Resume(t, wake) => ResumeKeeps(s, t, wake, prompt);
    case GiveUp(t) => PutKeeps(s, t, Idle(if s.terminated then Done else Error), prompt);
    case Timeout(t) => PutKeeps(s, t, Expired(p.job), prompt);
    case Late(t) => LateKeeps(s, t, prompt);
    case Spurious(t) => PutKeeps(s, t, Woken(p.job, p.timed), prompt);
    case Interrupt(t) =>
      WakeAllKeeps(s, prompt);
      PutKeeps(s.(threads := WakeAll(s.threads)), t, Idle(Interrupted), prompt);
    case TermFirst(t) => PutKeeps(s.(terminated := true), t, Closing, prompt);
    case TermSecond(t) =>
      WakeAllKeeps(s, prompt);
      PutKeeps(s.(threads := WakeAll(s.threads), closed := true), t, Idle(Terminated), prompt);
  }

  // --------------------------------------------------------------- whole runs

  ghost predicate Possible<T>(s: State<T>, run: seq<Label<T>>)
    decreases |run|
  {
    run == [] || (Counted(s) && Enabled(s, run[0]) && Possible(Next(s, run[0]), run[1..]))
  }

  ghost function After<T>(s: State<T>, run: seq<Label<T>>): (r: State<T>)
    requires Possible(s, run)
    decreases |run|
  {
    if run == [] then s else After(Next(s, run[0]), run[1..])
  }

  ghost function Initial<T>(bounds: nat, tids: set<Tid>): (s: State<T>) {
    State([], bounds, 0, 0, false, map t | t in tids :: Idle(NotYet), [], [], false)
  }

  lemma InitialInv<T>(bounds: nat, tids: set<Tid>)
    requires bounds > 0
    ensures Inv(Initial<T>(bounds, tids), true)
  {
    var s: State<T> := Initial(bounds, tids);
    forall side, stage ensures Size(s.threads, side, stage) == 0 {
      assert StageSet(s.threads, side, stage) == {};
    }
  }

  /** In every interleaving: first in first out, honest counters, nobody parked after termination. */
  lemma {:induction false} EveryRun<T>(s: State<T>, run: seq<Label<T>>)
    requires Inv(s, false) && Possible(s, run)
    ensures Inv(After(s, run), false)
    decreases |run|
  {
    if run != [] {
      NextKeeps(s, run[0], false);
      EveryRun(Next(s, run[0]), run[1..]);
    }
  }

  /** Every late timeout of the run finds that nobody needs what its thread was promised. */
  ghost predicate NoneLost<T>(s: State<T>, run: seq<Label<T>>)
    requires Possible(s, run)
    decreases |run|
  {
    run == [] || ((run[0].Late? ==> Harmless(s, run[0].t)) && NoneLost(Next(s, run[0]), run[1..]))
  }

  /** No wakeup is lost in any state of the run. */
  ghost predicate AlwaysPrompt<T>(s: State<T>, run: seq<Label<T>>)
    requires Possible(s, run)
    decreases |run|
  {
    Prompt(s) && (run == [] || AlwaysPrompt(Next(s, run[0]), run[1..]))
  }

  /** No wakeup is lost in an interleaving exactly if no late timeout takes one from a thread that stays parked. */
  lemma {:induction false} NoLostWakeups<T>(s: State<T>, run: seq<Label<T>>)
    requires Inv(s, true) && Possible(s, run)
    ensures AlwaysPrompt(s, run) <==> NoneLost(s, run)
    ensures NoneLost(s, run) ==> Inv(After(s, run), true)
    decreases |run|
  {
    if run != [] {
      var l := run[0];
      NextKeeps(s, l, false);
      if l.Late? {
        LateExactly(s, l.t);
      }
      if l.Late? ==> Harmless(s, l.t) {
        NextKeeps(s, l, true);
        NoLostWakeups(Next(s, l), run[1..]);
      } else {
        assert !Prompt(Next(s, l));
      }
    }
  }

  /** Nobody waits with a timeout. */
  ghost predicate Untimed<T>(s: State<T>) {
    forall t :: t in s.threads ==> UntimedPhase(s.threads[t])
  }

  ghost predicate UntimedPhase<T>(p: Phase<T>) {
    match p
    case Ready(_, timeout) => timeout <= 0
    case Parked(_, timed) => !timed
    case Woken(_, timed) => !timed
    case _ => true
  }

  lemma UntimedPut<T>(s: State<T>, t: Tid, p: Phase<T>)
    requires Untimed(s) && UntimedPhase(p)
    ensures Untimed(Put(s, t, p))
  {
    forall u | u in s.threads ensures UntimedPhase(Put(s, t, p).threads[u]) {
      assert UntimedPhase(s.threads[u]);
    }
  }

  lemma UntimedServed<T>(s: State<T>, t: Tid, job: Job<T>, wake: Tid)
    requires Untimed(s) && !Blocked(s, job.Side())
    ensures Untimed(Served(s, t, job, wake))
  {
    var d := Delivered(s, t, job);
    UntimedPut(s, t, d.threads[t]);
    if wake in StageSet(d.threads, Opposite(job.Side()), AtParked) {
      assert UntimedPhase(d.threads[wake]);
      UntimedPut(d, wake, Woken(d.threads[wake].job, d.threads[wake].timed));
    }
  }

  lemma UntimedWakeAll<T>(s: State<T>)
    requires Untimed(s)
    ensures Untimed(s.(threads := WakeAll(s.threads)))
  {
    forall u | u in s.threads ensures UntimedPhase(WakeAll(s.threads)[u]) {
      assert UntimedPhase(s.threads[u]);
    }
  }

  lemma UntimedResumed<T>(s: State<T>, t: Tid, wake: Tid)
    requires Inv(s, false) && Untimed(s) && t in s.threads && (s.threads[t].Woken? || s.threads[t].Expired?)
    ensures Untimed(Resumed(s, t, wake))
  {
    var p := s.threads[t];
    StageMember(s.threads, t);
    var s1 := WithWaiters(s, p.job.Side(), Waiters(s, p.job.Side()) - 1);
    assert s1.threads == s.threads;
    if p.Woken? && !Blocked(s1, p.job.Side()) {
      UntimedServed(s1, t, p.job, wake);
    } else {
      UntimedPut(s1, t, if p.Expired? then Idle(TimedOut) else Turned(p.job));
    }
  }

  lemma UntimedNext<T>(s: State<T>, l: Label<T>)
    requires Inv(s, false) && Enabled(s, l) && Untimed(s) && (l.Call? ==> l.timeout <= 0)
    ensures Untimed(Next(s, l)) && !l.Late?
  {
    assert UntimedPhase(s.threads[l.t]);
    match l {
      case Enter(t, wake) =>
        var p := s.threads[t];
        if !Blocked(s, p.job.Side()) {
          UntimedServed(s, t, p.job, wake);
        } else {
          UntimedPut(s, t, Next(s, l).threads[t]);
        }
      case Resume(t, wake) => UntimedResumed(s, t, wake);
      case Interrupt(t) =>
        UntimedWakeAll(s);
        UntimedPut(s.(threads := WakeAll(s.threads)), t, Idle(Interrupted));
      case TermSecond(t) =>
        UntimedWakeAll(s);
        UntimedPut(s.(threads := WakeAll(s.threads), closed := true), t, Idle(Terminated));
      case Call(t, job, timeout) => UntimedPut(s, t, if s.terminated then Idle(Done) else Ready(job, timeout));
      case GiveUp(t) => UntimedPut(s, t, Idle(if s.terminated then Done else Error));
      case Spurious(t) => UntimedPut(s, t, Woken(s.threads[t].job, s.threads[t].timed));
      case TermFirst(t) => UntimedPut(s.(terminated := true), t, Closing);
      case Timeout(_) =>
      case Late(_) =>
    }
  }

  /** No call of the run waits with a timeout. */
  ghost predicate UntimedCalls<T>(run: seq<Label<T>>) {
    forall i :: 0 <= i < |run| && run[i].Call? ==> run[i].timeout <= 0
  }

  /** If every call waits for ever or not at all, no wakeup is lost in any interleaving. */
  lemma {:induction false} UntimedRun<T>(s: State<T>, run: seq<Label<T>>)
    requires Inv(s, true) && Possible(s, run) && Untimed(s) && UntimedCalls(run)
    ensures NoneLost(s, run) && AlwaysPrompt(s, run)
    decreases |run|
  {
    if run != [] {
      UntimedNext(s, run[0]);
      NextKeeps(s, run[0], true);
      UntimedRun(Next(s, run[0]), run[1..]);
    }
  }

  lemma RunFrom<T>(s: State<T>, l: Label<T>, rest: seq<Label<T>>)
    requires Counted(s) && Enabled(s, l) && Possible(Next(s, l), rest)
    ensures Possible(s, [l] + rest) && After(s, [l] + rest) == After(Next(s, l), rest)
  {
    assert ([l] + rest)[1..] == rest;
  }

  lemma NobodyAt<T>(threads: map<Tid, Phase<T>>, side: Side, stage: Stage)
    requires forall t :: t in threads ==> !Within(threads[t], side, stage)
    ensures Size(threads, side, stage) == 0
  {
    assert StageSet(threads, side, stage) == {};
  }

  /** The queue is empty; popper `a` waits with a timeout, popper `b` waits too, and `c` is about to push. */
  ghost predicate TwoWait<T>(s: State<T>, a: Tid, b: Tid, c: Tid, x: T) {
    && Inv(s, true) && s.contents == [] && a != b && a in s.threads && b in s.threads && c in s.threads
    && s.threads[a] == Parked(Pop, true) && s.threads[b].Parked? && s.threads[b].job == Pop
    && s.threads[c].Ready? && s.threads[c].job == Push(x) && Size(s.threads, Poppers, AtWoken) == 0
  }

  ghost predicate PushWoke<T>(s: State<T>, s': State<T>, a: Tid, b: Tid, x: T) {
    && Inv(s', true) && s'.contents == [x] && a in s'.threads && b in s.threads && b in s'.threads
    && s'.threads[a] == Woken(Pop, true) && s'.threads[b] == s.threads[b]
    && Size(s'.threads, Poppers, AtWoken) == 1
  }

  /** The push wakes `a`. */
  lemma PushWakes<T>(s: State<T>, a: Tid, b: Tid, c: Tid, x: T)
    requires TwoWait(s, a, b, c, x)
    ensures Enabled(s, Enter(c, a))
    ensures PushWoke(s, Next(s, Enter(c, a)), a, b, x)
  {
    assert a in StageSet(s.threads, Poppers, AtParked);
    NextKeeps(s, Enter(c, a), true);
    var d := Delivered(s, c, Push(x));
    Moved(s.threads, c, Idle(Pushed), Poppers, AtWoken);
    assert a in StageSet(d.threads, Poppers, AtParked);
    Moved(d.threads, a, Woken(Pop, true), Poppers, AtWoken);
  }

  ghost predicate Lost<T>(s: State<T>, s': State<T>, b: Tid, x: T) {
    && !Prompt(s') && s'.contents == [x] && b in s.threads && b in s'.threads && s'.threads[b] == s.threads[b]
    && Size(s'.threads, Poppers, AtWoken) == 0
  }

  /**
    A wakeup is lost when a push wakes a popper whose timeout is then reported all
    the same: the element stays, nobody is woken, and the other popper stays parked.
  */
  lemma LateLoses<T>(s: State<T>, a: Tid, b: Tid, c: Tid, x: T)
    requires TwoWait(s, a, b, c, x)
    ensures Possible(s, [Enter(c, a)] + ([Late(a)] + []))
    ensures Lost(s, After(s, [Enter(c, a)] + ([Late(a)] + [])), b, x)
  {
    PushWakes(s, a, b, c, x);
    var s1 := Next(s, Enter(c, a));
    assert b in StageSet(s1.threads, Poppers, AtParked);
    LateExactly(s1, a);
    NextKeeps(s1, Late(a), false);
    Moved(s1.threads, a, Expired(Pop), Poppers, AtWoken);
    RunFrom(s1, Late(a), []);
    RunFrom(s, Enter(c, a), [Late(a)] + []);
  }

  lemma {:induction false} RunsJoin<T>(s: State<T>, first: seq<Label<T>>, second: seq<Label<T>>)
    requires Possible(s, first) && Possible(After(s, first), second)
    ensures Possible(s, first + second) && After(s, first + second) == After(After(s, first), second)
    decreases |first|
  {
    if first == [] {
      assert first + second == second;
    } else {
      assert [first[0]] + (first[1..] + second) == first + second;
      RunsJoin(Next(s, first[0]), first[1..], second);
      RunFrom(s, first[0], first[1..] + second);
    }
  }

  /** An empty queue whose threads are `threads`, with no pusher waiting. */
  ghost predicate Quiet<T>(s: State<T>, threads: map<Tid, Phase<T>>) {
    && Inv(s, true) && s.contents == [] && !s.terminated && s.threads == threads
    && forall t :: t in threads ==> !Within(threads[t], Pushers, AtParked)
  }

  lemma CallPossible<T>(s: State<T>, t: Tid, job: Job<T>, timeout: int)
    requires Quiet(s, s.threads) && t in s.threads && s.threads[t].Idle?
    ensures Possible(s, [Call(t, job, timeout)] + [])
    ensures Quiet(After(s, [Call(t, job, timeout)] + []), s.threads[t := Ready(job, timeout)])
  {
    NextKeeps(s, Call(t, job, timeout), true);
    RunFrom(s, Call(t, job, timeout), []);
  }

  lemma ParkPossible<T>(s: State<T>, t: Tid, timeout: int)
    requires Quiet(s, s.threads) && t in s.threads && s.threads[t] == Ready(Pop, timeout) && timeout != 0
    ensures Possible(s, [Enter(t, t)] + [])
    ensures Quiet(After(s, [Enter(t, t)] + []), s.threads[t := Parked(Pop, timeout > 0)])
  {
    NobodyAt(s.threads, Pushers, AtParked);
    NextKeeps(s, Enter(t, t), true);
    RunFrom(s, Enter(t, t), []);
  }

  lemma PopWaits<T>(s: State<T>, t: Tid, timeout: int) returns (run: seq<Label<T>>)
    requires Quiet(s, s.threads) && t in s.threads && s.threads[t].Idle? && timeout != 0
    ensures Possible(s, run) && Quiet(After(s, run), s.threads[t := Parked(Pop, timeout > 0)])
  {
    CallPossible(s, t, Pop, timeout);
    var first: seq<Label<T>> := [Call(t, Pop, timeout)] + [];
    var s1 := After(s, first);
    ParkPossible(s1, t, timeout);
    RunsJoin(s, first, [Enter(t, t)] + []);
    run := first + ([Enter(t, t)] + []);
    assert s.threads[t := Ready(Pop, timeout)][t := Parked(Pop, timeout > 0)] == s.threads[t := Parked(Pop,
      timeout > 0)];
  }

  lemma TwoPopsWait<T>(s: State<T>, a: Tid, b: Tid) returns (run: seq<Label<T>>)
    requires Quiet(s, s.threads) && a in s.threads && b in s.threads
    requires a != b && s.threads[a].Idle? && s.threads[b].Idle?
    ensures Possible(s, run) && Quiet(After(s, run), s.threads[a := Parked(Pop, true)][b := Parked(Pop, false)])
  {
    var first := PopWaits(s, a, 1);
    var s1 := After(s, first);
    var second := PopWaits(s1, b, -1);
    RunsJoin(s, first, second);
    run := first + second;
  }

  /** Any three idle threads of a quiet queue can come to that. */
  lemma LossPossible<T>(s: State<T>, a: Tid, b: Tid, c: Tid, x: T) returns (run: seq<Label<T>>)
    requires Quiet(s, s.threads) && a in s.threads && b in s.threads && c in s.threads && a != b && a != c && b != c
    requires forall t :: t in s.threads ==> s.threads[t].Idle?
    ensures Possible(s, run) && TwoWait(After(s, run), a, b, c, x)
  {
    var first := TwoPopsWait(s, a, b);
    var s1 := After(s, first);
    CallPossible(s1, c, Push(x), -1);
    var second: seq<Label<T>> := [Call(c, Push(x), -1)] + [];
    RunsJoin(s, first, second);
    run := first + second;
    NobodyAt(After(s1, second).threads, Poppers, AtWoken);
  }

  lemma NewIsQuiet<T>(bounds: nat, tids: set<Tid>)
    requires bounds > 0
    ensures var s: State<T> := Initial(bounds, tids);
            Quiet(s, s.threads) && forall t :: t in s.threads ==> s.threads[t].Idle?
  {
    InitialInv<T>(bounds, tids);
  }

  /** An element lies there, a popper is parked, and nobody is woken to take it. */
  ghost predicate Stuck<T>(s: State<T>, b: Tid, x: T) {
    && s.contents == [x] && b in s.threads && s.threads[b].Parked? && s.threads[b].job == Pop
    && Size(s.threads, Poppers, AtWoken) == 0
  }

  /** So a new queue has runs that lose a wakeup. */
  lemma WakeupCanBeLost<T>(bounds: nat, tids: set<Tid>, a: Tid, b: Tid, c: Tid, x: T) returns (run: seq<Label<T>>)
    requires bounds > 0 && {a, b, c} <= tids && a != b && a != c && b != c
    ensures var s: State<T> := Initial(bounds, tids);
            Possible(s, run) && Stuck(After(s, run), b, x) && !Prompt(After(s, run)) && !AlwaysPrompt(s, run)
  {
    var s: State<T> := Initial(bounds, tids);
    NewIsQuiet<T>(bounds, tids);
    var first := LossPossible(s, a, b, c, x);
    var second: seq<Label<T>> := [Enter(c, a)] + ([Late(a)] + []);
    LateLoses(After(s, first), a, b, c, x);
    RunsJoin(s, first, second);
    run := first + second;
    InitialInv<T>(bounds, tids);
    NoLostWakeups(s, run);
  }

  // ------------------------------------------------------------ with few threads

  /** Thread `a` is parked, and `b` waits on the same side. */
  ghost predicate SameWait<T>(s: State<T>, a: Tid, b: Tid) {
    && a != b && a in s.threads && b in s.threads && s.threads[a].Parked?
    && (s.threads[b].Parked? || s.threads[b].Woken?) && s.threads[a].job.Side() == s.threads[b].job.Side()
  }

  /** There are at most two threads, and if both wait on one side there is nothing for either. */
  ghost predicate Few<T>(s: State<T>) {
    && |s.threads.Keys| <= 2
    && forall a, b :: SameWait(s, a, b) ==> Available(s, s.threads[a].job.Side()) == 0
  }

  lemma NoThird(keys: set<Tid>, a: Tid, b: Tid, c: Tid)
    requires |keys| <= 2 && a in keys && b in keys && c in keys && a != b
    ensures c == a || c == b
  {
    assert |keys - {a} - {b}| == |keys| - 2;
    assert c !in keys - {a} - {b};
  }

  /** What the step after a wait does, with one waiter less. */
  lemma ResumedIs<T>(s: State<T>, u: Tid, wake: Tid) returns (s1: State<T>)
    requires Inv(s, false) && Enabled(s, Resume(u, wake))
    ensures s1.threads == s.threads && s1.contents == s.contents && s1.bounds == s.bounds
    ensures var p := s.threads[u];
            Next(s, Resume(u, wake)) ==
              if p.Woken? && !Blocked(s1, p.job.Side()) then Served(s1, u, p.job, wake)
              else Put(s1, u, if p.Expired? then Idle(TimedOut) else Turned(p.job))
  {
    StageMember(s.threads, u);
    s1 := WithWaiters(s, s.threads[u].job.Side(), Waiters(s, s.threads[u].job.Side()) - 1);
  }

  /** After its own step a thread waits only if it finds nothing to take, or was woken for no reason. */
  lemma WaitsAfter<T>(s: State<T>, l: Label<T>)
    requires Inv(s, false) && Enabled(s, l)
    requires var p' := Next(s, l).threads[l.t]; p'.Parked? || p'.Woken?
    ensures var p := s.threads[l.t];
            if l.Enter? then
              Blocked(s, p.job.Side()) && Next(s, l) == WithWaiters(Put(s, l.t, Parked(p.job, p.timeout > 0)),
                                                                    p.job.Side(), Waiters(s, p.job.Side()) + 1)
            else l.Spurious? && Next(s, l) == Put(s, l.t, Woken(p.job, p.timed))
  {
    if l.Resume? {
      TurnedOrIdle(s, l.t, l.wake);
    }
  }

  lemma TurnedOrIdle<T>(s: State<T>, t: Tid, wake: Tid)
    requires Inv(s, false) && Enabled(s, Resume(t, wake))
    ensures var s' := Next(s, Resume(t, wake)); t in s'.threads && (s'.threads[t].Turned? || s'.threads[t].Idle?)
  {
    var s1 := ResumedIs(s, t, wake);
  }

  /** Two threads come to wait on one side only by a step that finds nothing there, or waited there before. */
  lemma PairNext<T>(s: State<T>, l: Label<T>, a: Tid, b: Tid)
    requires Inv(s, false) && Enabled(s, l) && SameWait(Next(s, l), a, b) && (l.t == a || l.t == b)
    ensures a in s.threads && b in s.threads && Next(s, l).contents == s.contents && Next(s, l).bounds == s.bounds
    ensures if l.Enter? then Blocked(s, Next(s, l).threads[a].job.Side())
            else SameWait(s, a, b) && Next(s, l).threads[a].job == s.threads[a].job
  {
    WaitsAfter(s, l);
  }

  lemma FewNext<T>(s: State<T>, l: Label<T>)
    requires Inv(s, false) && Few(s) && Enabled(s, l)
    ensures Few(Next(s, l))
  {
    var s' := Next(s, l);
    NextHonest(s, l);
    forall a, b | SameWait(s', a, b) ensures Available(s', s'.threads[a].job.Side()) == 0 {
      NoThird(s.threads.Keys, a, b, l.t);
      PairNext(s, l, a, b);
    }
  }

  /** Then no late timeout does harm. */
  lemma FewHarmless<T>(s: State<T>, t: Tid)
    requires Few(s) && t in s.threads && s.threads[t].Woken?
    ensures Harmless(s, t)
  {
    var side := s.threads[t].job.Side();
    assert t in StageSet(s.threads, side, AtWoken);
    if Size(s.threads, side, AtParked) > 0 {
      var u :| u in StageSet(s.threads, side, AtParked);
      assert SameWait(s, u, t);
    }
  }

  lemma {:induction false} FewRun<T>(s: State<T>, run: seq<Label<T>>)
    requires Inv(s, true) && Few(s) && Possible(s, run)
    ensures NoneLost(s, run)
    decreases |run|
  {
    if run != [] {
      if run[0].Late? {
        FewHarmless(s, run[0].t);
      }
      FewNext(s, run[0]);
      NextKeeps(s, run[0], true);
      FewRun(Next(s, run[0]), run[1..]);
    }
  }

  lemma ThreeOf(tids: set<Tid>) returns (a: Tid, b: Tid, c: Tid)
    requires |tids| >= 3
    ensures {a, b, c} <= tids && a != b && a != c && b != c
  {
    a :| a in tids;
    assert |tids - {a}| == |tids| - 1;
    b :| b in tids - {a};
    assert |tids - {a} - {b}| == |tids - {a}| - 1;
    c :| c in tids - {a} - {b};
  }

  /** No run of a new queue loses a wakeup, with timed calls or without. */
  ghost predicate NeverLoses<T(!new)>(bounds: nat, tids: set<Tid>, timed: bool) {
    forall run: seq<Label<T>> ::
      Possible(Initial(bounds, tids), run) && (timed || UntimedCalls(run)) ==>
        AlwaysPrompt(Initial(bounds, tids), run)
  }

  lemma NeverLosesIf<T(!new)>(bounds: nat, tids: set<Tid>, timed: bool)
    requires bounds > 0 && (!timed || |tids| <= 2)
    ensures NeverLoses<T>(bounds, tids, timed)
  {
    assert Initial<T>(bounds, tids).threads.Keys == tids;
    InitialInv<T>(bounds, tids);
    forall run: seq<Label<T>> |
      Possible(Initial(bounds, tids), run) && (timed || UntimedCalls(run))
      ensures AlwaysPrompt(Initial(bounds, tids), run)
    {
      if timed {
        FewRun(Initial(bounds, tids), run);
        NoLostWakeups(Initial(bounds, tids), run);
      } else {
        UntimedRun(Initial(bounds, tids), run);
      }
    }
  }

  /** That is so exactly if no call is timed or there are at most two threads. */
  lemma PromptExactly<T(!new)>(bounds: nat, tids: set<Tid>, timed: bool, x: T)
    requires bounds > 0
    ensures NeverLoses<T>(bounds, tids, timed) <==> !timed || |tids| <= 2
  {
    if !timed || |tids| <= 2 {
      NeverLosesIf<T>(bounds, tids, timed);
    } else {
      var a, b, c := ThreeOf(tids);
      var run := WakeupCanBeLost(bounds, tids, a, b, c, x);
    }
  }

  /** A thread that stays parked with nobody woken on its side has nothing to take. */
  lemma ParkedForAReason<T>(s: State<T>, t: Tid)
    requires Inv(s, true) && t in s.threads && s.threads[t].Parked?
    requires Size(s.threads, s.threads[t].job.Side(), AtWoken) == 0
    ensures Blocked(s, s.threads[t].job.Side())
  {
    assert t in StageSet(s.threads, s.threads[t].job.Side(), AtParked);
  }

  /** A call reports success exactly when its own element went in or came out. */
  ghost predicate Honest<T>(s: State<T>, s': State<T>, t: Tid)
    requires t in s.threads && t in s'.threads
  {
    var p, p' := s.threads[t], s'.threads[t];
    if p'.Idle? && p'.outcome.Pushed? && !p.Idle? then
      (p.Ready? || p.Woken?) && p.job.Push? && s'.pushed == s.pushed + [p.job.x] && s'.popped == s.popped
    else if p'.Idle? && p'.outcome.Popped? && !p.Idle? then
      (p.Ready? || p.Woken?) && p.job.Pop? && s'.popped == s.popped + [p'.outcome.x] && s'.pushed == s.pushed
    else s'.pushed == s.pushed && s'.popped == s.popped
  }

  lemma ServedHonest<T>(s: State<T>, t: Tid, wake: Tid)
    requires t in s.threads && (s.threads[t].Ready? || s.threads[t].Woken?) && !Blocked(s, s.threads[t].job.Side())
    ensures var s' := Served(s, t, s.threads[t].job, wake);
            s'.threads.Keys == s.threads.Keys && Honest(s, s', t)
  {
  }

  lemma ResumeHonest<T>(s: State<T>, t: Tid, wake: Tid)
    requires Inv(s, false) && Enabled(s, Resume(t, wake))
    ensures var s' := Next(s, Resume(t, wake)); s'.threads.Keys == s.threads.Keys && Honest(s, s', t)
  {
    var p := s.threads[t];
    StageMember(s.threads, t);
    var s1 := WithWaiters(s, p.job.Side(), Waiters(s, p.job.Side()) - 1);
    if p.Woken? && !Blocked(s1, p.job.Side()) {
      ServedHonest(s1, t, wake);
    }
  }

  lemma NextHonest<T>(s: State<T>, l: Label<T>)
    requires Inv(s, false) && Enabled(s, l)
    ensures Next(s, l).threads.Keys == s.threads.Keys && Honest(s, Next(s, l), l.t)
  {
    var t, p := l.t, s.threads[l.t];
    match l
    case Enter(_, wake) =>
      if !Blocked(s, p.job.Side()) {
        ServedHonest(s, t, wake);
      }
    case Resume(_, wake) => ResumeHonest(s, t, wake);
    case _ =>
  }

  /** What was popped in a run, and what is left, is what was pushed, in order. */
  lemma {:induction false} LogsGrow<T>(s: State<T>, run: seq<Label<T>>)
    requires Inv(s, false) && Possible(s, run)
    ensures s.pushed <= After(s, run).pushed && s.popped <= After(s, run).popped
    ensures After(s, run).pushed == After(s, run).popped + After(s, run).contents
    decreases |run|
  {
    if run != [] {
      NextKeeps(s, run[0], false);
      NextHonest(s, run[0]);
      LogsGrow(Next(s, run[0]), run[1..]);
    }
  }

  /** Once termination has completed it stays so: nobody is parked and nobody parks again. */
  lemma {:induction false} ClosedForEver<T>(s: State<T>, run: seq<Label<T>>)
    requires Inv(s, false) && s.closed && Possible(s, run)
    ensures After(s, run).closed && After(s, run).terminated
    ensures forall t :: t in After(s, run).threads ==> !After(s, run).threads[t].Parked?
    decreases |run|
  {
    EveryRun(s, run);
    if run == [] {
      forall t | t in s.threads ensures !s.threads[t].Parked? {
        assert s.threads[t].Parked? ==> t in StageSet(s.threads, s.threads[t].job.Side(), AtParked);
      }
    } else {
      NextKeeps(s, run[0], false);
      ClosedForEver(Next(s, run[0]), run[1..]);
    }
  }

  /** How many of its own steps a thread is away from its caller once nobody can park. */
  ghost function Distance<T>(p: Phase<T>): (n: nat) {
    match p
    case Idle(_) => 0
    case Turned(_) => 1
    case Closing => 1
    case Expired(_) => 1
    case Woken(_, _) => 2
    case Ready(_, _) => 2
    case Parked(_, _) => 3
  }

  /** A thread that neither is idle nor waits to be woken can go on. */
  lemma OwnStep<T>(s: State<T>, t: Tid) returns (l: Label<T>)
    requires t in s.threads && !s.threads[t].Idle? && !s.threads[t].Parked?
    ensures l.t == t && Enabled(s, l)
  {
    var p, wake := s.threads[t], 0;
    if p.Ready? || p.Woken? {
      var side := Opposite(p.job.Side());
      if Size(s.threads, side, AtParked) > 0 {
        wake :| wake in StageSet(s.threads, side, AtParked);
      }
    }
    l := match p
      case Ready(_, _) => Enter(t, wake)
      case Woken(_, _) => Resume(t, wake)
      case Expired(_) => Resume(t, wake)
      case Turned(_) => GiveUp(t)
      case _ => TermSecond(t);
  }

  /**
    After termination every call returns within three own steps: it always has one to
    take, each brings it nearer, and what others do does not hold it up.
  */
  lemma CallsReturn<T>(s: State<T>, l: Label<T>, t: Tid)
    requires Inv(s, false) && s.closed && Enabled(s, l) && t in s.threads
    ensures t in Next(s, l).threads
    ensures s.threads[t].Idle? || exists own: Label<T> :: own.t == t && Enabled(s, own)
    ensures l.t == t && !s.threads[t].Idle? ==> Distance(Next(s, l).threads[t]) < Distance(s.threads[t])
    ensures l.t != t ==> Distance(Next(s, l).threads[t]) == Distance(s.threads[t])
    ensures s.threads[t].Idle? && l.t == t ==> Next(s, l).threads[t].Idle? || Next(s, l).threads[t].Closing?
  {
    ClosedForEver(s, []);
    NextHonest(s, l);
    if !s.threads[t].Idle? {
      var own := OwnStep(s, t);
    }
  }

  // ------------------------------------------------------ how calls wait and return

  /** A step parks a thread exactly if it enters, finds nothing there, may wait, and the queue is not terminated. */
  lemma ParksExactly<T>(s: State<T>, l: Label<T>, t: Tid)
    requires Inv(s, false) && Enabled(s, l) && t in s.threads && !s.threads[t].Parked?
    ensures t in Next(s, l).threads
    ensures Next(s, l).threads[t].Parked? <==>
            l.Enter? && l.t == t && Blocked(s, s.threads[t].job.Side()) && s.threads[t].timeout != 0 && !s.terminated
    ensures Next(s, l).threads[t].Parked? ==>
              Next(s, l).threads[t] == Parked(s.threads[t].job, s.threads[t].timeout > 0)
  {
    NextHonest(s, l);
    if l.t == t && Next(s, l).threads[t].Parked? {
      WaitsAfter(s, l);
    }
  }

  /** What a call that was under way reports when a step ends it. */
  lemma ReportsExactly<T>(s: State<T>, l: Label<T>)
    requires Inv(s, false) && Enabled(s, l) && !s.threads[l.t].Idle? && Next(s, l).threads[l.t].Idle?
    ensures var p, o := s.threads[l.t], Next(s, l).threads[l.t].outcome;
      && (o.Retry? <==> l.Enter? && Blocked(s, p.job.Side()) && p.timeout == 0)
      && (o.TimedOut? <==> p.Expired?)
      && (o.Done? <==> p.Turned? && s.terminated)
      && (o.Error? <==> p.Turned? && !s.terminated)
      && (o.Terminated? <==> p.Closing?)
      && (o.Pushed? || o.Popped? <==> (p.Ready? || p.Woken?) && !Blocked(s, p.job.Side()))
      && o != NotYet && o != Interrupted
  {
    if l.Resume? {
      var s1 := ResumedIs(s, l.t, l.wake);
      if s.threads[l.t].Woken? && !Blocked(s1, s.threads[l.t].job.Side()) {
        ServedHonest(s1, l.t, l.wake);
      }
    }
  }

  /** A thread is given up on exactly by a timeout while it waits with one. */
  lemma ExpiresExactly<T>(s: State<T>, l: Label<T>, t: Tid)
    requires Inv(s, false) && Enabled(s, l) && t in s.threads && !s.threads[t].Expired?
    ensures t in Next(s, l).threads
    ensures Next(s, l).threads[t].Expired? <==> l.t == t && (l.Timeout? || l.Late?)
    ensures Next(s, l).threads[t].Expired? ==> (s.threads[t].Parked? || s.threads[t].Woken?) && s.threads[t].timed
  {
    NextHonest(s, l);
    if l.Resume? && l.t == t {
      TurnedOrIdle(s, t, l.wake);
    }
  }

  /** A thread whose calls all have the timeout 0 is not waiting. */
  ghost predicate NotWaiting<T>(p: Phase<T>) {
    p.Idle? || p.Closing? || (p.Ready? && p.timeout == 0)
  }

  lemma NotWaitingNext<T>(s: State<T>, l: Label<T>, t: Tid)
    requires Inv(s, false) && Enabled(s, l) && t in s.threads && NotWaiting(s.threads[t])
    requires l.Call? && l.t == t ==> l.timeout == 0
    ensures t in Next(s, l).threads && NotWaiting(Next(s, l).threads[t])
  {
    NextHonest(s, l);
    if l.Resume? && l.t != t {
      var s1 := ResumedIs(s, l.t, l.wake);
      if s.threads[l.t].Woken? && !Blocked(s1, s.threads[l.t].job.Side()) {
        ServedOthers(s1, l.t, s.threads[l.t].job, l.wake, t);
      }
    }
    if l.Enter? && l.t != t && !Blocked(s, s.threads[l.t].job.Side()) {
      ServedOthers(s, l.t, s.threads[l.t].job, l.wake, t);
    }
  }

  /** Calls with the timeout 0 never wait, in any interleaving. */
  lemma {:induction false} TriesNeverWait<T>(s: State<T>, run: seq<Label<T>>, t: Tid)
    requires Inv(s, false) && Possible(s, run) && t in s.threads && NotWaiting(s.threads[t])
    requires forall i :: 0 <= i < |run| && run[i].Call? && run[i].t == t ==> run[i].timeout == 0
    ensures t in After(s, run).threads && NotWaiting(After(s, run).threads[t])
    decreases |run|
  {
    if run != [] {
      NotWaitingNext(s, run[0], t);
      NextKeeps(s, run[0], false);
      TriesNeverWait(Next(s, run[0]), run[1..], t);
    }
  }

  // -------------------------------------------------- why a wait ends in an error

  /** A call without a timeout is at its wait. */
  ghost predicate AtWait<T>(s: State<T>, t: Tid) {
    t in s.threads && ((s.threads[t].Parked? && !s.threads[t].timed) || (s.threads[t].Woken? && !s.threads[t].timed))
  }

  /** It is woken, and there is nothing for it. */
  ghost predicate Spoiled<T>(s: State<T>, t: Tid) {
    AtWait(s, t) && s.threads[t].Woken? && Blocked(s, s.threads[t].job.Side())
  }

  /** Woken for no reason, or by a broadcast. */
  ghost predicate WokenInVain<T>(s: State<T>, l: Label<T>, t: Tid)
    requires AtWait(s, t)
  {
    s.threads[t].Parked? && Blocked(s, s.threads[t].job.Side()) && (l == Spurious(t) || l.Interrupt? || l.TermSecond?)
  }

  /** Another thread takes the last element, or the last free slot, before the woken one has the mutex. */
  ghost predicate Overtaken<T>(s: State<T>, l: Label<T>, t: Tid)
    requires AtWait(s, t) && Enabled(s, l) && Counted(s)
  {
    var side := s.threads[t].job.Side();
    s.threads[t].Woken? && l.t != t && Available(s, side) == 1 && Available(Next(s, l), side) == 0
  }

  /** A service moves one element, and may wake one thread of the other side. */
  lemma ServedOthers<T>(s: State<T>, u: Tid, job: Job<T>, wake: Tid, t: Tid)
    requires u in s.threads && t in s.threads && t != u && !Blocked(s, job.Side()) && s.bounds > 0
    ensures var s' := Served(s, u, job, wake);
            && s'.bounds == s.bounds
            && Available(s', job.Side()) == Available(s, job.Side()) - 1
            && Available(s', Opposite(job.Side())) == Available(s, Opposite(job.Side())) + 1
            && t in s'.threads
            && (s'.threads[t] == s.threads[t] ||
                (s.threads[t].Parked? && s.threads[t].job.Side() == Opposite(job.Side()) &&
                 s'.threads[t] == Woken(s.threads[t].job, s.threads[t].timed)))
  {
  }

  /** What a service does to the wait of another thread. */
  lemma SpoiledByService<T>(s: State<T>, u: Tid, job: Job<T>, wake: Tid, t: Tid)
    requires AtWait(s, t) && !Spoiled(s, t) && u in s.threads && t != u && !Blocked(s, job.Side())
    requires s.bounds > 0 && |s.contents| <= s.bounds
    ensures var s', side := Served(s, u, job, wake), s.threads[t].job.Side();
            && AtWait(s', t)
            && (Spoiled(s', t) <==> s.threads[t].Woken? && Available(s, side) == 1 && Available(s', side) == 0)
  {
    ServedOthers(s, u, job, wake, t);
  }

  lemma SpoiledByEnter<T>(s: State<T>, l: Label<T>, t: Tid)
    requires Inv(s, false) && AtWait(s, t) && !Spoiled(s, t) && Enabled(s, l) && l.t != t && l.Enter?
    ensures Spoiled(Next(s, l), t) <==> Overtaken(s, l, t)
    ensures AtWait(Next(s, l), t)
  {
    var job := s.threads[l.t].job;
    if !Blocked(s, job.Side()) {
      SpoiledByService(s, l.t, job, l.wake, t);
      assert Next(s, l) == Served(s, l.t, job, l.wake);
    } else {
      assert Next(s, l).contents == s.contents && Next(s, l).threads[t] == s.threads[t];
    }
  }

  lemma SpoiledByResume<T>(s: State<T>, l: Label<T>, t: Tid)
    requires Inv(s, false) && AtWait(s, t) && !Spoiled(s, t) && Enabled(s, l) && l.t != t && l.Resume?
    ensures Spoiled(Next(s, l), t) <==> Overtaken(s, l, t)
    ensures AtWait(Next(s, l), t)
  {
    var p := s.threads[l.t];
    var s1 := ResumedIs(s, l.t, l.wake);
    if p.Woken? && !Blocked(s1, p.job.Side()) {
      SpoiledByService(s1, l.t, p.job, l.wake, t);
    }
  }

  /** Its own steps either wake the waiting thread or let it come back. */
  lemma OwnAtWait<T>(s: State<T>, l: Label<T>, t: Tid)
    requires Inv(s, false) && AtWait(s, t) && !Spoiled(s, t) && Enabled(s, l) && l.t == t
    ensures t in Next(s, l).threads
    ensures Spoiled(Next(s, l), t) <==> WokenInVain(s, l, t)
    ensures var p' := Next(s, l).threads[t];
            AtWait(Next(s, l), t) || (p'.Idle? && (p'.outcome.Pushed? || p'.outcome.Popped?))
  {
    if l.Resume? {
      StageMember(s.threads, t);
      var p := s.threads[t];
      assert !Blocked(WithWaiters(s, p.job.Side(), Waiters(s, p.job.Side()) - 1), p.job.Side());
      NextHonest(s, l);
    }
  }

  lemma OthersAtWait<T>(s: State<T>, l: Label<T>, t: Tid)
    requires Inv(s, false) && AtWait(s, t) && !Spoiled(s, t) && Enabled(s, l) && l.t != t && !l.Enter? && !l.Resume?
    ensures Spoiled(Next(s, l), t) <==> WokenInVain(s, l, t)
    ensures AtWait(Next(s, l), t) && !Overtaken(s, l, t)
  {
    assert Next(s, l).contents == s.contents;
  }

  /** A wait is spoiled exactly by being woken in vain or by being overtaken. */
  lemma SpoiledExactly<T>(s: State<T>, l: Label<T>, t: Tid)
    requires Inv(s, false) && AtWait(s, t) && !Spoiled(s, t) && Enabled(s, l)
    ensures t in Next(s, l).threads
    ensures Spoiled(Next(s, l), t) <==> WokenInVain(s, l, t) || Overtaken(s, l, t)
    ensures var p' := Next(s, l).threads[t];
            AtWait(Next(s, l), t) || (p'.Idle? && (p'.outcome.Pushed? || p'.outcome.Popped?))
  {
    if l.t == t {
      OwnAtWait(s, l, t);
    } else if l.Enter? {
      SpoiledByEnter(s, l, t);
    } else if l.Resume? {
      SpoiledByResume(s, l, t);
    } else {
      OthersAtWait(s, l, t);
    }
  }

  /** And exactly then the call comes back with `OGS_ERROR`, or `OGS_DONE` once the queue is terminated. */
  lemma SpoiledReturns<T>(s: State<T>, t: Tid, wake: Tid)
    requires Inv(s, false) && AtWait(s, t) && Enabled(s, Resume(t, wake))
    ensures var s' := Next(s, Resume(t, wake));
            && t in s'.threads && Inv(s', false)
            && if Spoiled(s, t)
               then Enabled(s', GiveUp(t)) &&
                    Next(s', GiveUp(t)).threads[t] == Idle(if s.terminated then Done else Error)
               else s'.threads[t].Idle? && (s'.threads[t].outcome.Pushed? || s'.threads[t].outcome.Popped?)
  {
    StageMember(s.threads, t);
    NextKeeps(s, Resume(t, wake), false);
    NextHonest(s, Resume(t, wake));
  }

  /** Between states of a run in which the wait is never spoiled. */
  ghost predicate NeverSpoiled<T>(s: State<T>, run: seq<Label<T>>, t: Tid)
    requires Possible(s, run)
    decreases |run|
  {
    !Spoiled(s, t) && (run == [] || NeverSpoiled(Next(s, run[0]), run[1..], t))
  }

  /** How the call that is at its wait in `s` comes back in the run; `NotYet` if it does not. */
  ghost function Returned<T>(s: State<T>, run: seq<Label<T>>, t: Tid): (r: Outcome<T>)
    requires Possible(s, run)
    decreases |run|
  {
    if t in s.threads && s.threads[t].Idle? then s.threads[t].outcome
    else if run == [] then NotYet
    else Returned(Next(s, run[0]), run[1..], t)
  }

  /** So a call without a timeout fails in a run only if its wait is spoiled there. */
  lemma {:induction false} ErrorHasCause<T>(s: State<T>, run: seq<Label<T>>, t: Tid)
    requires Inv(s, false) && AtWait(s, t) && Possible(s, run) && NeverSpoiled(s, run, t)
    ensures var r := Returned(s, run, t); r.NotYet? || r.Pushed? || r.Popped?
    decreases |run|
  {
    if run != [] {
      var l := run[0];
      NextKeeps(s, l, false);
      SpoiledExactly(s, l, t);
      if !Next(s, l).threads[t].Idle? {
        ErrorHasCause(Next(s, l), run[1..], t);
      }
    }
  }
}
