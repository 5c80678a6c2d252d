/**
  The queue object: a ring buffer and counters, changed in critical sections.
  Each method is one critical section and takes exactly one step of the protocol.
*/
module BlockingQueue {
  import opened Common
  import opened QueueProtocol

  /** What a critical section of a push or pop tells its caller to do. */
  datatype Verdict = Returns | Waits | TurnsAway

  /** The protocol state after a wait has ended. */
  ghost function PushOutcome<T>(s: State<T>, x: T, timedOut: bool, t: Tid, wake: Tid): (r: State<T>)
    requires s.fullWaiters > 0
  {
    var s1 := s.(fullWaiters := s.fullWaiters - 1);
    if timedOut then Put(s1, t, Idle(TimedOut))
    else if Blocked(s1, Pushers) then Put(s1, t, Turned(Push(x)))
    else Served(s1, t, Push(x), wake)
  }

  /** The step after a wait, spelled out for either side. */
  lemma PushResumed<T>(s: State<T>, x: T, t: Tid, wake: Tid)
    requires Inv(s, false) && Enabled(s, Resume(t, wake)) && s.threads[t].job == Push(x)
    ensures s.fullWaiters > 0
    ensures Next(s, Resume(t, wake)) == PushOutcome(s, x, s.threads[t].Expired?, t, wake)
  {
    StageMember(s.threads, t);
  }

  /** The protocol state after a wait has ended. */
  ghost function PopOutcome<T>(s: State<T>, timedOut: bool, t: Tid, wake: Tid): (r: State<T>)
    requires s.emptyWaiters > 0
  {
    var s1 := s.(emptyWaiters := s.emptyWaiters - 1);
    if timedOut then Put(s1, t, Idle(TimedOut))
    else if Blocked(s1, Poppers) then Put(s1, t, Turned(Pop))
    else Served(s1, t, Pop, wake)
  }

  lemma PopResumed<T>(s: State<T>, t: Tid, wake: Tid)
    requires Inv(s, false) && Enabled(s, Resume(t, wake)) && s.threads[t].job == Pop
    ensures s.emptyWaiters > 0
    ensures Next(s, Resume(t, wake)) == PopOutcome(s, s.threads[t].Expired?, t, wake)
  {
    StageMember(s.threads, t);
  }

  class Queue<T(0)> {
    const data: array<T>
    const bounds: nat
    var nelts: nat
    var in_: nat
    var out: nat
    var fullWaiters: nat
    var emptyWaiters: nat
    var terminated: bool
    ghost var threads: map<Tid, Phase<T>>
    ghost var pushed: seq<T>
    ghost var popped: seq<T>
    ghost var closed: bool

    ghost predicate Ring()
      reads `nelts, `in_, `out
    {
      data.Length == bounds > 0 && nelts <= bounds && out < bounds && in_ == Wrap(out + nelts, bounds)
    }

    /** The elements in the ring, oldest first. */
    ghost function Contents(): (s: seq<T>)
      requires Ring()
      reads `nelts, `in_, `out, data
      ensures |s| == nelts
      ensures forall i :: 0 <= i < nelts ==> s[i] == data[Wrap(out + i, bounds)]
    {
      if out + nelts <= bounds then data[out..out + nelts] else data[out..] + data[..out + nelts - bounds]
    }

    ghost function Abs(): (s: State<T>)
      requires Ring()
      reads this, data
    {
      State(Contents(), bounds, fullWaiters, emptyWaiters, terminated, threads, pushed, popped, closed)
    }

    ghost predicate Valid()
      reads this, data
    {
      Ring() && Inv(Abs(), false)
    }

    constructor (capacity: nat, ghost tids: set<Tid>)
      requires capacity > 0
      ensures Valid() && Abs() == Initial(capacity, tids) && fresh(data)
    {
      data := new T[capacity];
      bounds := capacity;
      nelts, in_, out := 0, 0, 0;
      fullWaiters, emptyWaiters, terminated := 0, 0, false;
      threads, pushed, popped, closed := map t | t in tids :: Idle(NotYet), [], [], false;
      new;
      InitialInv<T>(capacity, tids);
    }

    /** The ring and the counters stand for a state of the protocol after every step. */
    lemma StepTaken(was: State<T>, l: Label<T>)
      requires Ring() && Inv(was, false) && Enabled(was, l) && Abs() == Next(was, l)
      ensures Valid()
    {
      NextKeeps(was, l, false);
    }

    /** `pthread_cond_signal`: `wake` is the thread it picks, if any waits. */
    ghost method Signal(side: Side, wake: Tid)
      modifies `threads
      ensures threads == if wake in StageSet(old(threads), side, AtParked)
                         then old(threads)[wake := Woken(old(threads)[wake].job,
                           old(threads)[wake].timed)] else old(threads)
    {
      if wake in StageSet(threads, side, AtParked) {
        threads := threads[wake := Woken(threads[wake].job, threads[wake].timed)];
      }
    }

    method Store(x: T)
      requires Ring() && nelts < bounds
      modifies `in_, `nelts, data
      ensures Ring() && Contents() == old(Contents()) + [x]
    {
      ghost var was := Contents();
      data[in_] := x;
      in_ := in_ + 1;
      if in_ >= bounds {
        in_ := in_ - bounds;
      }
      nelts := nelts + 1;
      assert Contents() == was + [x];
    }

    method Load() returns (x: T)
      requires Ring() && nelts > 0
      modifies `out, `nelts
      ensures Ring() && x == old(Contents())[0] && Contents() == old(Contents())[1..]
    {
      ghost var was := Contents();
      x := data[out];
      nelts := nelts - 1;
      out := out + 1;
      if out >= bounds {
        out := out - bounds;
      }
      assert Contents() == was[1..];
    }

    method Give(x: T, ghost t: Tid)
      requires Ring() && nelts < bounds
      modifies `in_, `nelts, `pushed, `threads, data
      ensures Ring() && Abs() == Delivered(old(Abs()), t, Push(x))
    {
      Store(x);
      pushed := pushed + [x];
      threads := threads[t := Idle(Pushed)];
    }

    method Take(ghost t: Tid) returns (x: T)
      requires Ring() && nelts > 0
      modifies `out, `nelts, `popped, `threads
      ensures Ring() && Abs() == Delivered(old(Abs()), t, Pop)
      ensures t in threads && threads[t] == Idle(Popped(x))
    {
      x := Load();
      popped := popped + [x];
      threads := threads[t := Idle(Popped(x))];
    }

    /** The tail of `queue_push`, from the store to the unlock. */
    method Insert(x: T, ghost t: Tid, ghost wake: Tid)
      requires Ring() && nelts < bounds
      modifies `in_, `nelts, `pushed, `threads, data
      ensures Ring() && Contents() == old(Contents()) + [x]
      ensures Abs() == Served(old(Abs()), t, Push(x), wake) && t in threads && threads[t] == Idle(Pushed)
    {
      Give(x, t);
      if emptyWaiters != 0 {
        Signal(Poppers, wake);
      }
    }

    /** The tail of `queue_pop`, from the load to the unlock. */
    method Extract(ghost t: Tid, ghost wake: Tid) returns (x: T)
      requires Ring() && nelts > 0
      modifies `out, `nelts, `popped, `threads
      ensures Ring() && x == old(Contents())[0] && Contents() == old(Contents())[1..]
      ensures Abs() == Served(old(Abs()), t, Pop, wake) && t in threads && threads[t] == Idle(Popped(x))
    {
      x := Take(t);
      if fullWaiters != 0 {
        Signal(Pushers, wake);
      }
    }

    /** The thread is somewhere else now. */
    ghost method Place(t: Tid, p: Phase<T>)
      requires Ring()
      modifies `threads
      ensures Abs() == Put(old(Abs()), t, p) && threads == old(threads)[t := p]
    {
      threads := threads[t := p];
    }

    method LeavePushers()
      requires Ring() && fullWaiters > 0
      modifies `fullWaiters
      ensures Abs() == old(Abs()).(fullWaiters := old(fullWaiters) - 1)
    {
      fullWaiters := fullWaiters - 1;
    }

    method LeavePoppers()
      requires Ring() && emptyWaiters > 0
      modifies `emptyWaiters
      ensures Abs() == old(Abs()).(emptyWaiters := old(emptyWaiters) - 1)
    {
      emptyWaiters := emptyWaiters - 1;
    }

    /** The unlocked test of `terminated` before a push or a pop. */
    method CallStep(ghost t: Tid, ghost job: Job<T>, timeout: int) returns (done: bool)
      requires Valid() && Enabled(Abs(), Call(t, job, timeout))
      modifies `threads
      ensures Valid() && Abs() == Next(old(Abs()), Call(t, job, timeout))
      ensures done == terminated && threads[t] == if terminated then Idle(Done) else Ready(job, timeout)
    {
      ghost var was, l := Abs(), Call(t, job, timeout);
      done := terminated;
      Place(t, if terminated then Idle(Done) else Ready(job, timeout));
      StepTaken(was, l);
    }

    /** `queue_push` from the lock to the unlock or the wait. */
    method PushEnter(x: T, timeout: int, ghost t: Tid, ghost wake: Tid) returns (verdict: Verdict, rv: Outcome<T>)
      requires Valid() && Enabled(Abs(), Enter(t, wake)) && threads[t] == Ready(Push(x), timeout)
      modifies `in_, `nelts, `fullWaiters, `pushed, `threads, data
      ensures Valid() && Abs() == Next(old(Abs()), Enter(t, wake))
      ensures verdict == Returns ==> threads[t] == Idle(rv)
      ensures verdict == TurnsAway ==> threads[t].Turned?
      ensures !old(nelts == bounds) ==> verdict == Returns && rv == Pushed && Contents() == old(Contents()) + [x]
      ensures old(nelts == bounds) ==>
              Contents() == old(Contents()) &&
                if timeout == 0 then verdict == Returns && rv == Retry
                else if terminated then verdict == TurnsAway
                else verdict == Waits && threads[t] == Parked(Push(x), timeout > 0)
      ensures fullWaiters == old(fullWaiters) + if verdict == Waits then 1 else 0
    {
      ghost var was, l := Abs(), Enter(t, wake);
      if nelts == bounds {
        if timeout == 0 {
          Place(t, Idle(Retry));
          StepTaken(was, l);
          return Returns, Retry;
        }
        if !terminated {
          fullWaiters := fullWaiters + 1;
          Place(t, Parked(Push(x), timeout > 0));
          StepTaken(was, l);
          return Waits, NotYet;
        }
        Place(t, Turned(Push(x)));
        StepTaken(was, l);
        return TurnsAway, NotYet;
      }
      Insert(x, t, wake);
      StepTaken(was, l);
      return Returns, Pushed;
    }

    method PushUnlessFull(x: T, ghost t: Tid, ghost wake: Tid) returns (verdict: Verdict, rv: Outcome<T>)
      requires Ring()
      modifies `in_, `nelts, `pushed, `threads, data
      ensures Ring()
      ensures Abs() == if Blocked(old(Abs()), Pushers) then Put(old(Abs()), t, Turned(Push(x)))
                       else Served(old(Abs()), t, Push(x), wake)
      ensures if old(nelts == bounds) then verdict == TurnsAway && Contents() == old(Contents())
              else verdict == Returns && rv == Pushed && Contents() == old(Contents()) + [x]
      ensures t in threads && if verdict == Returns then threads[t] == Idle(rv) else threads[t].Turned?
    {
      if nelts == bounds {
        Place(t, Turned(Push(x)));
        return TurnsAway, NotYet;
      }
      Insert(x, t, wake);
      return Returns, Pushed;
    }

    /** `queue_push` from the end of the wait to the unlock; `timedOut` is what the wait reports. */
    method PushResume(x: T, timedOut: bool, ghost t: Tid, ghost wake: Tid) returns (verdict: Verdict, rv: Outcome<T>)
      requires Valid() && Enabled(Abs(), Resume(t, wake))
      requires threads[t].job == Push(x) && threads[t].Expired? == timedOut
      modifies `in_, `nelts, `fullWaiters, `pushed, `threads, data
      ensures Valid() && Abs() == Next(old(Abs()), Resume(t, wake))
      ensures if timedOut then verdict == Returns && rv == TimedOut && Contents() == old(Contents())
              else if old(nelts == bounds) then verdict == TurnsAway && Contents() == old(Contents())
              else verdict == Returns && rv == Pushed && Contents() == old(Contents()) + [x]
      ensures fullWaiters == old(fullWaiters) - 1
      ensures if verdict == Returns then threads[t] == Idle(rv) else threads[t].Turned?
    {
      ghost var was, l := Abs(), Resume(t, wake);
      PushResumed(was, x, t, wake);
      LeavePushers();
      if timedOut {
        Place(t, Idle(TimedOut));
        StepTaken(was, l);
        return Returns, TimedOut;
      }
      verdict, rv := PushUnlessFull(x, t, wake);
      StepTaken(was, l);
    }

    /** `queue_pop` from the lock to the unlock or the wait. */
    method PopEnter(timeout: int, ghost t: Tid, ghost wake: Tid) returns (verdict: Verdict, rv: Outcome<T>)
      requires Valid() && Enabled(Abs(), Enter(t, wake)) && threads[t] == Ready(Pop, timeout)
      modifies `out, `nelts, `emptyWaiters, `popped, `threads
      ensures Valid() && Abs() == Next(old(Abs()), Enter(t, wake))
      ensures verdict == Returns ==> threads[t] == Idle(rv)
      ensures verdict == TurnsAway ==> threads[t].Turned?
      ensures !old(nelts == 0) ==>
              verdict == Returns && rv == Popped(old(Contents())[0]) && Contents() == old(Contents())[1..]
      ensures old(nelts == 0) ==>
              Contents() == old(Contents()) &&
                if timeout == 0 then verdict == Returns && rv == Retry
                else if terminated then verdict == TurnsAway
                else verdict == Waits && threads[t] == Parked(Pop, timeout > 0)
      ensures emptyWaiters == old(emptyWaiters) + if verdict == Waits then 1 else 0
    {
      ghost var was, l := Abs(), Enter(t, wake);
      if nelts == 0 {
        if timeout == 0 {
          Place(t, Idle(Retry));
          StepTaken(was, l);
          return Returns, Retry;
        }
        if !terminated {
          emptyWaiters := emptyWaiters + 1;
          Place(t, Parked(Pop, timeout > 0));
          StepTaken(was, l);
          return Waits, NotYet;
        }
        Place(t, Turned(Pop));
        StepTaken(was, l);
        return TurnsAway, NotYet;
      }
      var x := Extract(t, wake);
      StepTaken(was, l);
      return Returns, Popped(x);
    }

    method PopUnlessEmpty(ghost t: Tid, ghost wake: Tid) returns (verdict: Verdict, rv: Outcome<T>)
      requires Ring()
      modifies `out, `nelts, `popped, `threads
      ensures Ring()
      ensures Abs() ==
              if Blocked(old(Abs()), Poppers) then Put(old(Abs()), t, Turned(Pop)) else Served(old(Abs()), t, Pop, wake)
      ensures if old(nelts == 0) then verdict == TurnsAway && Contents() == old(Contents())
              else verdict == Returns && rv == Popped(old(Contents())[0]) && Contents() == old(Contents())[1..]
      ensures t in threads && if verdict == Returns then threads[t] == Idle(rv) else threads[t].Turned?
    {
      if nelts == 0 {
        Place(t, Turned(Pop));
        return TurnsAway, NotYet;
      }
      var x := Extract(t, wake);
      return Returns, Popped(x);
    }

    /** `queue_pop` from the end of the wait to the unlock. */
    method PopResume(timedOut: bool, ghost t: Tid, ghost wake: Tid) returns (verdict: Verdict, rv: Outcome<T>)
      requires Valid() && Enabled(Abs(), Resume(t, wake))
      requires threads[t].job == Pop && threads[t].Expired? == timedOut
      modifies `out, `nelts, `emptyWaiters, `popped, `threads
      ensures Valid() && Abs() == Next(old(Abs()), Resume(t, wake))
      ensures if timedOut then verdict == Returns && rv == TimedOut && Contents() == old(Contents())
              else if old(nelts == 0) then verdict == TurnsAway && Contents() == old(Contents())
              else verdict == Returns && rv == Popped(old(Contents())[0]) && Contents() == old(Contents())[1..]
      ensures emptyWaiters == old(emptyWaiters) - 1
      ensures if verdict == Returns then threads[t] == Idle(rv) else threads[t].Turned?
    {
      ghost var was, l := Abs(), Resume(t, wake);
      PopResumed(was, t, wake);
      LeavePoppers();
      if timedOut {
        Place(t, Idle(TimedOut));
        StepTaken(was, l);
        return Returns, TimedOut;
      }
      verdict, rv := PopUnlessEmpty(t, wake);
      StepTaken(was, l);
    }

    /** After the unlock: why a push or pop that was woken has nothing to do. */
    method GiveUpStep(ghost t: Tid) returns (rv: Outcome<T>)
      requires Valid() && Enabled(Abs(), GiveUp(t))
      modifies `threads
      ensures Valid() && Abs() == Next(old(Abs()), GiveUp(t)) && threads[t] == Idle(rv)
      ensures rv == if terminated then Done else Error
    {
      ghost var was, l := Abs(), GiveUp(t);
      rv := if terminated then Done else Error;
      Place(t, Idle(rv));
      StepTaken(was, l);
    }

    method InterruptAll(ghost t: Tid)
      requires Valid() && Enabled(Abs(), Interrupt(t))
      modifies `threads
      ensures Valid() && Abs() == Next(old(Abs()), Interrupt(t))
      ensures forall u :: u in threads ==> !threads[u].Parked?
    {
      ghost var was, l := Abs(), Interrupt(t);
      threads := WakeAll(threads)[t := Idle(Interrupted)];
      StepTaken(was, l);
    }

    /** `ogs_queue_term` sets the flag under the lock, and interrupts everybody in a second critical section. */
    method TermFlag(ghost t: Tid)
      requires Valid() && Enabled(Abs(), TermFirst(t))
      modifies `threads, `terminated
      ensures terminated && Valid() && Abs() == Next(old(Abs()), TermFirst(t))
    {
      ghost var was, l := Abs(), TermFirst(t);
      terminated := true;
      Place(t, Closing);
      StepTaken(was, l);
    }

    method TermBroadcast(ghost t: Tid)
      requires Valid() && Enabled(Abs(), TermSecond(t))
      modifies `threads, `closed
      ensures Valid() && Abs() == Next(old(Abs()), TermSecond(t))
      ensures forall u :: u in threads ==> !threads[u].Parked?
    {
      ghost var was, l := Abs(), TermSecond(t);
      threads := WakeAll(threads)[t := Idle(Terminated)];
      closed := true;
      StepTaken(was, l);
    }
  }
}
