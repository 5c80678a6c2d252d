/**
  What the timer manager schedules, as a value: running timers in firing order.
*/
module TimerQueue {
  import opened Common
  import opened Timers

  /** A running timer, when it is due, and how many starts came before its own. */
  datatype Entry = Entry(timer: Timer, timeout: int, stamp: nat)

  /** The running timers, and how many starts there were so far. */
  datatype Schedule = Schedule(queue: seq<Entry>, starts: nat)

  /** After every entry that is due no later. */
  ghost function Insert(q: seq<Entry>, e: Entry): (r: seq<Entry>) {
    if q == [] then [e]
    else if e.timeout < q[0].timeout then [e] + q
    else [q[0]] + Insert(q[1..], e)
  }

  ghost function Without(q: seq<Entry>, t: Timer): (r: seq<Entry>) {
    if q == [] then []
    else if q[0].timer == t then Without(q[1..], t)
    else [q[0]] + Without(q[1..], t)
  }

  /** How many entries are due, counted up to the first that is not. */
  ghost function DueCount(q: seq<Entry>, now: int): (d: nat)
    ensures d <= |q|
  {
    if q == [] || q[0].timeout > now then 0 else 1 + DueCount(q[1..], now)
  }

  ghost function TimersOf(q: seq<Entry>): (s: seq<Timer>)
    ensures |s| == |q| && forall i :: 0 <= i < |q| ==> s[i] == q[i].timer
  {
    seq(|q|, i requires 0 <= i < |q| => q[i].timer)
  }

  /** What a callback does to timers. */
  datatype Action =
    | Start(timer: Timer, duration: int, now: int)
    | Stop(timer: Timer)

  ghost function Started(s: Schedule, t: Timer, timeout: int): (r: Schedule) {
    Schedule(Insert(Without(s.queue, t), Entry(t, timeout, s.starts)), s.starts + 1)
  }

  ghost function Stopped(s: Schedule, t: Timer): (r: Schedule) {
    s.(queue := Without(s.queue, t))
  }

  ghost function Done(s: Schedule, a: Action): (r: Schedule) {
    match a
    case Start(t, duration, now) => Started(s, t, now + duration)
    case Stop(t) => Stopped(s, t)
  }

  ghost function AllDone(s: Schedule, actions: seq<Action>): (r: Schedule)
    decreases |actions|
  {
    if actions == [] then s else AllDone(Done(s, actions[0]), actions[1..])
  }

  /** Each timer of the batch is stopped and its callback run, one after the other. */
  ghost function Fired(s: Schedule, batch: seq<Timer>, script: Timer -> seq<Action>): (r: Schedule)
    decreases |batch|
  {
    if batch == [] then s
    else Fired(AllDone(Stopped(s, batch[0]), script(batch[0])), batch[1..], script)
  }

  /** Earlier means due earlier, or due at the same time and started earlier. */
  ghost predicate Earlier(a: Entry, b: Entry) {
    a.timeout < b.timeout || (a.timeout == b.timeout && a.stamp < b.stamp)
  }

  /** The invariant of the scheduler: strict firing order, one entry per timer. */
  ghost predicate Orderly(s: Schedule) {
    && (forall i, j :: 0 <= i < j < |s.queue| ==>
         Earlier(s.queue[i], s.queue[j]) && s.queue[i].timer != s.queue[j].timer)
    && (forall e :: e in s.queue ==> e.stamp < s.starts)
  }

  ghost predicate Absent(q: seq<Entry>, t: Timer) {
    forall e :: e in q ==> e.timer != t
  }

  // ------------------------------------------------------------- single steps

  lemma {:induction false} InsertAt(q: seq<Entry>, e: Entry, k: nat)
    requires k <= |q|
    requires forall i :: 0 <= i < k ==> q[i].timeout <= e.timeout
    requires k < |q| ==> e.timeout < q[k].timeout
    ensures Insert(q, e) == InsertedAt(q, k, e)
  {
    if k == 0 {
      assert q[..0] + [e] + q[0..] == [e] + q;
    } else {
      InsertAt(q[1..], e, k - 1);
      assert q[0].timeout <= e.timeout;
      assert q[..k] + [e] + q[k..] == [q[0]] + (q[1..][..k - 1] + [e] + q[1..][k - 1..]);
    }
  }

  lemma {:induction false} WithoutNone(q: seq<Entry>, t: Timer)
    requires forall e :: e in q ==> e.timer != t
    ensures Without(q, t) == q
  {
    if q != [] {
      WithoutNone(q[1..], t);
    }
  }

  lemma {:induction false} WithoutAt(q: seq<Entry>, k: nat)
    requires k < |q|
    requires forall i :: 0 <= i < |q| && i != k ==> q[i].timer != q[k].timer
    ensures Without(q, q[k].timer) == RemovedAt(q, k)
  {
    if k == 0 {
      WithoutNone(q[1..], q[0].timer);
      assert q[..0] + q[1..] == q[1..];
    } else {
      WithoutAt(q[1..], k - 1);
      assert q[0].timer != q[k].timer;
      assert q[..k] + q[k + 1..] == [q[0]] + (q[1..][..k - 1] + q[1..][k..]);
    }
  }

  lemma {:induction false} WithoutMembers(q: seq<Entry>, t: Timer, e: Entry)
    ensures e in Without(q, t) <==> e in q && e.timer != t
  {
    if q != [] {
      WithoutMembers(q[1..], t, e);
    }
  }

  lemma {:induction false} InsertMembers(q: seq<Entry>, x: Entry, e: Entry)
    ensures e in Insert(q, x) <==> e in q || e == x
  {
    if q != [] && x.timeout >= q[0].timeout {
      InsertMembers(q[1..], x, e);
    }
  }

  lemma {:induction false} WithoutOrderly(s: Schedule, t: Timer)
    requires Orderly(s)
    ensures Orderly(Stopped(s, t))
    decreases |s.queue|
  {
    var q := s.queue;
    if q != [] {
      var tail := Without(q[1..], t);
      WithoutOrderly(s.(queue := q[1..]), t);
      forall e | e in tail ensures Earlier(q[0], e) && e.timer != q[0].timer && e.stamp < s.starts {
        WithoutMembers(q[1..], t, e);
      }
      assert Without(q, t) == if q[0].timer == t then tail else [q[0]] + tail;
    }
  }

  lemma {:induction false} InsertOrderly(s: Schedule, t: Timer, timeout: int)
    requires Orderly(s) && forall e :: e in s.queue ==> e.timer != t
    ensures Orderly(Schedule(Insert(s.queue, Entry(t, timeout, s.starts)), s.starts + 1))
    decreases |s.queue|
  {
    var q, x := s.queue, Entry(t, timeout, s.starts);
    if q == [] {
    } else if x.timeout >= q[0].timeout {
      var tail := Insert(q[1..], x);
      InsertOrderly(s.(queue := q[1..]), t, timeout);
      forall e | e in tail ensures Earlier(q[0], e) && e.timer != q[0].timer {
        InsertMembers(q[1..], x, e);
      }
      assert Insert(q, x) == [q[0]] + tail;
    } else {
      assert forall i :: 0 <= i < |q| ==> Earlier(x, q[i]);
      assert Insert(q, x) == [x] + q;
    }
  }

  lemma DoneOrderly(s: Schedule, a: Action)
    requires Orderly(s)
    ensures Orderly(Done(s, a))
  {
    WithoutOrderly(s, a.timer);
    forall e | e in Without(s.queue, a.timer) ensures e.timer != a.timer {
      WithoutMembers(s.queue, a.timer, e);
    }
    match a
    case Start(t, duration, now) => InsertOrderly(Stopped(s, t), t, now + duration);
    case Stop(_) =>
  }

  /** Exactly the timers that are due are in the batch. */
  lemma {:induction false} DueExact(s: Schedule, now: int, i: nat)
    requires Orderly(s) && i < |s.queue|
    ensures i < DueCount(s.queue, now) <==> s.queue[i].timeout <= now
    decreases |s.queue|
  {
    var q := s.queue;
    if i > 0 {
      assert Earlier(q[0], q[i]);
      DueExact(s.(queue := q[1..]), now, i - 1);
    }
  }

  lemma {:induction false} DueCountIs(q: seq<Entry>, now: int, k: nat)
    requires k <= |q|
    requires forall i :: 0 <= i < k ==> q[i].timeout <= now
    requires k < |q| ==> q[k].timeout > now
    ensures DueCount(q, now) == k
  {
    if k > 0 {
      assert q[0].timeout <= now;
      DueCountIs(q[1..], now, k - 1);
    }
  }

  // ------------------------------------------------------- a whole expiry round

  lemma {:induction false} AllDoneSnoc(s: Schedule, actions: seq<Action>, a: Action)
    ensures AllDone(s, actions + [a]) == Done(AllDone(s, actions), a)
    decreases |actions|
  {
    if actions == [] {
      assert AllDone(s, [a]) == AllDone(Done(s, a), []);
    } else {
      assert (actions + [a])[1..] == actions[1..] + [a];
      AllDoneSnoc(Done(s, actions[0]), actions[1..], a);
    }
  }

  lemma {:induction false} FiredSnoc(s: Schedule, batch: seq<Timer>, script: Timer -> seq<Action>, t: Timer)
    ensures Fired(s, batch + [t], script) == AllDone(Stopped(Fired(s, batch, script), t), script(t))
    decreases |batch|
  {
    if batch == [] {
      assert (batch + [t])[1..] == [];
    } else {
      assert (batch + [t])[1..] == batch[1..] + [t];
      FiredSnoc(AllDone(Stopped(s, batch[0]), script(batch[0])), batch[1..], script, t);
    }
  }

  lemma {:induction false} AllDoneOrderly(s: Schedule, actions: seq<Action>)
    requires Orderly(s)
    ensures Orderly(AllDone(s, actions))
    decreases |actions|
  {
    if actions != [] {
      DoneOrderly(s, actions[0]);
      AllDoneOrderly(Done(s, actions[0]), actions[1..]);
    }
  }

  lemma {:induction false} FiredOrderly(s: Schedule, batch: seq<Timer>, script: Timer -> seq<Action>)
    requires Orderly(s)
    ensures Orderly(Fired(s, batch, script))
    decreases |batch|
  {
    if batch != [] {
      WithoutOrderly(s, batch[0]);
      AllDoneOrderly(Stopped(s, batch[0]), script(batch[0]));
      FiredOrderly(AllDone(Stopped(s, batch[0]), script(batch[0])), batch[1..], script);
    }
  }

  /** The entries of the timers in `keep`, in order. */
  ghost function Restrict(q: seq<Entry>, keep: set<Timer>): (r: seq<Entry>) {
    if q == [] then []
    else if q[0].timer in keep then [q[0]] + Restrict(q[1..], keep)
    else Restrict(q[1..], keep)
  }

  lemma {:induction false} RestrictWithout(q: seq<Entry>, t: Timer, keep: set<Timer>)
    requires t !in keep
    ensures Restrict(Without(q, t), keep) == Restrict(q, keep)
  {
    if q != [] {
      RestrictWithout(q[1..], t, keep);
    }
  }

  lemma {:induction false} RestrictInsert(q: seq<Entry>, e: Entry, keep: set<Timer>)
    requires e.timer !in keep
    ensures Restrict(Insert(q, e), keep) == Restrict(q, keep)
  {
    if q == [] {
    } else if e.timeout < q[0].timeout {
      assert ([e] + q)[1..] == q;
    } else {
      RestrictInsert(q[1..], e, keep);
      assert ([q[0]] + Insert(q[1..], e))[1..] == Insert(q[1..], e);
    }
  }

  lemma {:induction false} RestrictAllDone(s: Schedule, actions: seq<Action>, keep: set<Timer>)
    requires forall a :: a in actions ==> a.timer !in keep
    ensures Restrict(AllDone(s, actions).queue, keep) == Restrict(s.queue, keep)
    decreases |actions|
  {
    if actions != [] {
      var a := actions[0];
      RestrictWithout(s.queue, a.timer, keep);
      match a {
        case Start(t, duration, now) =>
          RestrictInsert(Without(s.queue, t), Entry(t, now + duration, s.starts), keep);
        case Stop(_) =>
      }
      RestrictAllDone(Done(s, a), actions[1..], keep);
    }
  }

  /** Timers that neither fire nor are named by a callback keep their entries, in the same order. */
  lemma {:induction false} OthersUntouched(s: Schedule, batch: seq<Timer>, script: Timer -> seq<Action>,
                                           keep: set<Timer>)
    requires forall t :: t in batch ==> t !in keep
    requires forall t, a :: t in batch && a in script(t) ==> a.timer !in keep
    ensures Restrict(Fired(s, batch, script).queue, keep) == Restrict(s.queue, keep)
    decreases |batch|
  {
    if batch != [] {
      var t := batch[0];
      assert t in batch;
      RestrictWithout(s.queue, t, keep);
      RestrictAllDone(Stopped(s, t), script(t), keep);
      OthersUntouched(AllDone(Stopped(s, t), script(t)), batch[1..], script, keep);
    }
  }

  datatype Deadline = Never | At(timeout: int)

  /** When a timer is due according to the last action that names it. */
  ghost function LastWord(actions: seq<Action>, t: Timer, before: Deadline): (r: Deadline)
    decreases |actions|
  {
    if actions == [] then before
    else LastWord(actions[1..], t,
      if actions[0].timer != t then before
      else if actions[0].Start? then At(actions[0].now + actions[0].duration)
      else Never)
  }

  /** When a timer is due according to the queue. */
  ghost function DeadlineIn(q: seq<Entry>, t: Timer): (r: Deadline) {
    if q == [] then Never else if q[0].timer == t then At(q[0].timeout) else DeadlineIn(q[1..], t)
  }

  lemma {:induction false} DeadlineWithout(q: seq<Entry>, u: Timer, t: Timer)
    ensures DeadlineIn(Without(q, u), t) == if u == t then Never else DeadlineIn(q, t)
  {
    if q != [] {
      DeadlineWithout(q[1..], u, t);
    }
  }

  lemma {:induction false} DeadlineInsert(q: seq<Entry>, e: Entry, t: Timer)
    requires e.timer == t ==> DeadlineIn(q, t) == Never
    ensures DeadlineIn(Insert(q, e), t) == if e.timer == t then At(e.timeout) else DeadlineIn(q, t)
  {
    if q == [] {
    } else if e.timeout < q[0].timeout {
      assert ([e] + q)[1..] == q;
    } else {
      DeadlineInsert(q[1..], e, t);
      assert ([q[0]] + Insert(q[1..], e))[1..] == Insert(q[1..], e);
    }
  }

  lemma {:induction false} DeadlineAllDone(s: Schedule, actions: seq<Action>, t: Timer)
    ensures DeadlineIn(AllDone(s, actions).queue, t) == LastWord(actions, t, DeadlineIn(s.queue, t))
    decreases |actions|
  {
    if actions != [] {
      var a := actions[0];
      DeadlineWithout(s.queue, a.timer, t);
      match a {
        case Start(u, duration, now) => DeadlineInsert(Without(s.queue, u), Entry(u, now + duration, s.starts), t);
        case Stop(_) =>
      }
      DeadlineAllDone(Done(s, a), actions[1..], t);
    }
  }

  /** A fired timer is running afterwards exactly if its own callback re-armed it, and then with the new timeout. */
  lemma {:induction false} FiredDeadline(s: Schedule, batch: seq<Timer>, script: Timer -> seq<Action>, t: Timer)
    requires Distinct(batch)
    requires forall u, a :: u in batch && u != t && a in script(u) ==> a.timer != t
    ensures DeadlineIn(Fired(s, batch, script).queue, t) ==
            if t in batch then LastWord(script(t), t, Never) else DeadlineIn(s.queue, t)
    decreases |batch|
  {
    if batch != [] {
      var u := batch[0];
      assert u in batch;
      var s1 := Stopped(s, u);
      DeadlineWithout(s.queue, u, t);
      DeadlineAllDone(s1, script(u), t);
      if u != t {
        LastWordSilent(script(u), t, DeadlineIn(s1.queue, t));
      }
      FiredDeadline(AllDone(s1, script(u)), batch[1..], script, t);
    }
  }

  lemma {:induction false} LastWordSilent(actions: seq<Action>, t: Timer, before: Deadline)
    requires forall a :: a in actions ==> a.timer != t
    ensures LastWord(actions, t, before) == before
    decreases |actions|
  {
    if actions != [] {
      LastWordSilent(actions[1..], t, before);
    }
  }

  ghost function Due(s: Schedule, now: int): (batch: seq<Timer>) {
    TimersOf(s.queue[..DueCount(s.queue, now)])
  }

  /** Callbacks name their own timer, or timers outside the batch. */
  ghost predicate KeepsOut(batch: seq<Timer>, script: Timer -> seq<Action>) {
    forall t, a :: t in batch && a in script(t) ==> a.timer == t || a.timer !in batch
  }

  /** The batch is exactly the due timers, each once, the earliest first and ties in start order. */
  lemma DueInOrder(s: Schedule, now: int)
    requires Orderly(s)
    ensures Distinct(Due(s, now))
    ensures forall e :: e in s.queue ==> (e.timer in Due(s, now) <==> e.timeout <= now)
    ensures forall i, j :: 0 <= i < j < |Due(s, now)| ==>
              Due(s, now)[i] == s.queue[i].timer && Due(s, now)[j] == s.queue[j].timer &&
                Earlier(s.queue[i], s.queue[j])
  {
    var d, batch := DueCount(s.queue, now), Due(s, now);
    forall e | e in s.queue ensures e.timer in batch <==> e.timeout <= now {
      var i :| 0 <= i < |s.queue| && s.queue[i] == e;
      DueExact(s, now, i);
      assert i < d ==> batch[i] == e.timer;
      assert e.timer in batch ==> exists j :: 0 <= j < d && s.queue[j].timer == e.timer;
    }
  }

  /**
    After a round, a fired timer runs exactly if its own callback re-armed it last, with
    the timeout it asked for; and what no callback names is as it was, in the same order.
  */
  lemma ExpiryRound(s: Schedule, now: int, script: Timer -> seq<Action>, t: Timer, keep: set<Timer>)
    requires Orderly(s) && KeepsOut(Due(s, now), script)
    requires forall u :: u in Due(s, now) ==> u !in keep
    requires forall u, a :: u in Due(s, now) && a in script(u) ==> a.timer !in keep
    ensures var s' := Fired(s, Due(s, now), script);
            && Orderly(s')
            && (t in Due(s, now) ==> DeadlineIn(s'.queue, t) == LastWord(script(t), t, Never))
            && Restrict(s'.queue, keep) == Restrict(s.queue, keep)
  {
    var batch := Due(s, now);
    DueInOrder(s, now);
    FiredOrderly(s, batch, script);
    OthersUntouched(s, batch, script, keep);
    if t in batch {
      FiredDeadline(s, batch, script, t);
    }
  }

  /** What can happen to the manager from outside. */
  datatype Event =
    | Act(action: Action)
    | Expire(now: int, script: Timer -> seq<Action>)

  ghost function Happened(s: Schedule, e: Event): (r: Schedule) {
    match e
    case Act(a) => Done(s, a)
    case Expire(now, script) => Fired(s, Due(s, now), script)
  }

  ghost function Run(s: Schedule, events: seq<Event>): (r: Schedule)
    decreases |events|
  {
    if events == [] then s else Run(Happened(s, events[0]), events[1..])
  }

  /** Every reachable schedule is in strict firing order with one entry per running timer. */
  lemma {:induction false} RunOrderly(s: Schedule, events: seq<Event>)
    requires Orderly(s)
    ensures Orderly(Run(s, events))
    decreases |events|
  {
    if events != [] {
      match events[0] {
        case Act(a) => DoneOrderly(s, a);
        case Expire(now, script) => FiredOrderly(s, Due(s, now), script);
      }
      RunOrderly(Happened(s, events[0]), events[1..]);
    }
  }
}
