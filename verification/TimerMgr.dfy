/**
  The timer manager: running timers hang in a red-black tree by timeout.
*/
module TimerManager {
  import opened Common
  import opened Timers
  import opened TreeShape
  import opened TreeHeap
  import RbTrees
  import Lists
  import opened TimerQueue

  class TimerMgr {
    const tree: RbTrees.RbTree
    const capacity: nat
    var avail: nat
    ghost var timers: set<Timer>
    ghost var schedule: Schedule

    /** The tree lists exactly the scheduled timers, each with its timeout. */
    ghost predicate Mirrors(order: seq<Timer>, q: seq<Entry>)
      reads order`timeout
    {
      |order| == |q| && forall i :: 0 <= i < |q| ==> q[i].timer == order[i] && q[i].timeout == order[i].timeout
    }

    /** The tree is the schedule. */
    ghost predicate Consistent()
      reads this, tree, tree.nodes`timeout
      reads tree.nodes`left, tree.nodes`right, tree.nodes`parent, tree.nodes`color
    {
      tree.Valid() && tree.nodes <= timers && InTree(tree.Order()) &&
      Mirrors(tree.Order(), schedule.queue) && Orderly(schedule)
    }

    /** A timer is in the tree exactly when its flag `running` is set. */
    ghost predicate Valid()
      reads this, tree, tree.nodes`timeout, timers`running
      reads tree.nodes`left, tree.nodes`right, tree.nodes`parent, tree.nodes`color
    {
      Consistent() && avail + |timers| == capacity && forall t :: t in timers ==> (t.running <==> t in tree.nodes)
    }

    constructor (capacity: nat)
      ensures Valid() && timers == {} && schedule == Schedule([], 0) && avail == capacity
      ensures fresh(tree)
    {
      tree := new RbTrees.RbTree();
      this.capacity := capacity;
      avail := capacity;
      timers := {};
      schedule := Schedule([], 0);
    }

    /** Hangs a timer that is not in the tree into it, behind all timers due no later. */
    method AddTimerNode(timer: Timer, duration: int, now: int)
      requires Consistent() && timer in timers - tree.nodes
      modifies `schedule, tree, timer`timeout, timer`left, timer`right, timer`parent, timer`color
      modifies tree.nodes`left, tree.nodes`right, tree.nodes`parent, tree.nodes`color
      ensures Consistent() && tree.nodes == old(tree.nodes) + {timer}
      ensures schedule.queue == Insert(old(schedule.queue), Entry(timer, now + duration, old(schedule.starts)))
      ensures schedule.starts == old(schedule.starts) + 1
    {
      var parent, new_;
      ghost var c;
      parent, new_, c := Place(timer, duration, now);
      Hang(timer, parent, new_, c);
    }

    method SetTimeout(timer: Timer, timeout: int)
      requires Consistent() && timer !in tree.nodes
      modifies timer`timeout
      ensures Consistent() && timer.timeout == timeout && Absent(schedule.queue, timer)
    {
      NotQueued(timer);
      timer.timeout := timeout;
    }

    /** Sets the timeout and finds the link to hang the timer into. */
    method Place(timer: Timer, duration: int, now: int) returns (parent: Timer?, new_: Slot, ghost c: Ctx)
      requires Consistent() && timer in timers - tree.nodes
      modifies `schedule, timer`timeout
      ensures tree.Valid() && Plug(c, Leaf) == tree.shape && parent == Above(c, null) && new_ == SlotOf(c)
      ensures Orderly(schedule) && Mirrors(Before(c) + [timer] + After(c), schedule.queue)
      ensures schedule.queue == Insert(old(schedule.queue), Entry(timer, now + duration, old(schedule.starts)))
      ensures schedule.starts == old(schedule.starts) + 1
    {
      ghost var was, steps := schedule, 0;
      SetTimeout(timer, now + duration);
      parent, new_, c, steps := FindLink(timer.timeout);
      assert schedule == was && timer.timeout == now + duration;
      schedule := Queued(was, c, timer);
    }

    method Hang(timer: Timer, parent: Timer?, new_: Slot, ghost c: Ctx)
      requires tree.Valid() && timer !in tree.nodes
      requires Plug(c, Leaf) == tree.shape && parent == Above(c, null) && new_ == SlotOf(c)
      modifies tree, timer`left, timer`right, timer`parent, timer`color
      modifies tree.nodes`left, tree.nodes`right, tree.nodes`parent, tree.nodes`color
      ensures tree.Valid() && tree.nodes == old(tree.nodes) + {timer}
      ensures tree.Order() == Before(c) + [timer] + After(c) && InTree(tree.Order())
    {
      tree.LinkNode(timer, parent, new_, c);
      tree.InsertColor(timer, c);
      OrderInTree();
    }

    /** What the link that was chosen for `timeout` at `parent` holds. */
    ghost predicate Holds(parent: Timer?, new_: Slot, timeout: int, this_: Timer?)
      reads tree, Only(parent)
    {
      match new_
      case AtRoot => parent == null && tree.root == this_
      case OnLeft => parent != null && parent.left == this_ && timeout < parent.timeout
      case OnRight => parent != null && parent.right == this_ && parent.timeout <= timeout
    }

    /** The place for `timeout` is in `t`, the part of the tree below `this_`. */
    ghost predicate Descending(timeout: int, c: Ctx, t: Tree, this_: Timer?, parent: Timer?, new_: Slot)
      reads this, tree
    {
      && Plug(c, t) == tree.shape && this_ == RootOf(t) && parent == Above(c, null) && new_ == SlotOf(c)
      && Brackets(schedule.queue, |Before(c)|, |Before(c)| + |InOrder(t)|, timeout)
    }

    /** One step of the descent. */
    method StepDown(timeout: int, parent: Timer, ghost c: Ctx, ghost t: Tree, ghost above: Timer?, ghost slot: Slot)
      returns (this_: Timer?, new_: Slot, ghost c': Ctx, ghost t': Tree)
      requires tree.Valid() && InTree(tree.Order()) && Mirrors(tree.Order(), schedule.queue) && Orderly(schedule)
      requires Descending(timeout, c, t, parent, above, slot)
      ensures Descending(timeout, c', t', this_, parent, new_) && t.Branch? && Height(t') < Height(t)
      ensures Holds(parent, new_, timeout, this_)
    {
      ghost var n := Around(tree.mem, c, t, tree.root);
      Descend(c, t, timeout);
      if timeout < parent.timeout {
        this_, new_ := parent.left, OnLeft;
        c', t' := InLeft(parent, t.color, t.right, c), t.left;
      } else {
        this_, new_ := parent.right, OnRight;
        c', t' := InRight(t.left, parent, t.color, c), t.right;
      }
    }

    /**
      The descent: the empty link behind all timers due no later than `timeout`, found
      in at most `2 * log2(n + 1)` steps.
    */
    method FindLink(timeout: int) returns (parent: Timer?, new_: Slot, ghost c: Ctx, ghost steps: nat)
      requires tree.Valid() && InTree(tree.Order()) && Mirrors(tree.Order(), schedule.queue) && Orderly(schedule)
      ensures Plug(c, Leaf) == tree.shape && parent == Above(c, null) && new_ == SlotOf(c)
      ensures Brackets(schedule.queue, |Before(c)|, |Before(c)|, timeout) && Holds(parent, new_, timeout, null)
      ensures Pow2(steps) <= (|tree.Order()| + 1) * (|tree.Order()| + 1)
    {
      DescentBound();
      steps := 0;
      var this_ := tree.root;
      parent, new_ := null, AtRoot;
      c := Top;
      ghost var t := tree.shape;
      ghost var n := Around(tree.mem, c, t, tree.root);
      while this_ != null
        invariant Descending(timeout, c, t, this_, parent, new_) && steps + Height(t) <= Height(tree.shape)
        invariant Holds(parent, new_, timeout, this_)
        decreases Height(t)
      {
        ghost var above, slot := parent, new_;
        steps := steps + 1;
        parent := this_;
        this_, new_, c, t := StepDown(timeout, parent, c, t, above, slot);
      }
      Pow2Monotone(steps, Height(tree.shape));
    }

    lemma DescentBound()
      requires tree.Valid()
      ensures Pow2(Height(tree.shape)) <= (|tree.Order()| + 1) * (|tree.Order()| + 1)
    {
      HeightBound(tree.shape);
    }

    /** One step of the descent keeps the place inside the subtree. */
    lemma Descend(c: Ctx, t: Tree, timeout: int)
      requires tree.Valid() && InTree(tree.Order()) && Mirrors(tree.Order(), schedule.queue) && Orderly(schedule)
      requires Plug(c, t) == tree.shape && t.Branch?
      requires Brackets(schedule.queue, |Before(c)|, |Before(c)| + |InOrder(t)|, timeout)
      ensures t.node in tree.nodes
      ensures timeout < t.node.timeout ==>
              Brackets(schedule.queue, |Before(c)|, |Before(c)| + |InOrder(t.left)|, timeout)
      ensures timeout >= t.node.timeout ==>
                Brackets(schedule.queue, |Before(c)| + |InOrder(t.left)| + 1, |Before(c)| + |InOrder(t)|, timeout)
    {
      PlugInOrder(c, t);
      RootPosition(tree.Order(), schedule.queue, Before(c), t, After(c));
      var i := |Before(c)| + |InOrder(t.left)|;
      if timeout < t.node.timeout {
        NarrowLeft(schedule, i, |Before(c)|, |Before(c)| + |InOrder(t)|, timeout);
      } else {
        NarrowRight(schedule, i, |Before(c)|, |Before(c)| + |InOrder(t)|, timeout);
      }
    }

    /** The schedule with one more timer is mirrored and orderly again. */
    lemma Queued(was: Schedule, c: Ctx, timer: Timer) returns (s: Schedule)
      requires Orderly(was) && Mirrors(InOrder(Plug(c, Leaf)), was.queue)
      requires Absent(was.queue, timer) && Brackets(was.queue, |Before(c)|, |Before(c)|, timer.timeout)
      ensures s == Schedule(Insert(was.queue, Entry(timer, timer.timeout, was.starts)), was.starts + 1)
      ensures Orderly(s) && Mirrors(Before(c) + [timer] + After(c), s.queue)
    {
      var e, k, order := Entry(timer, timer.timeout, was.starts), |Before(c)|, InOrder(Plug(c, Leaf));
      PlugInOrder(c, Leaf);
      assert order == Before(c) + After(c);
      assert order[..k] == Before(c) && order[k..] == After(c);
      MirrorsInsert(order, was.queue, k, e);
      InsertAt(was.queue, e, k);
      InsertOrderly(was, timer, timer.timeout);
      s := Schedule(Insert(was.queue, e), was.starts + 1);
    }

    lemma OrderInTree()
      requires tree.Valid()
      ensures InTree(tree.Order())
    {
      NodesOf(tree.shape);
    }

    lemma MirrorsInsert(order: seq<Timer>, q: seq<Entry>, k: nat, e: Entry)
      requires Mirrors(order, q) && k <= |q| && e.timer.timeout == e.timeout
      ensures Mirrors(InsertedAt(order, k, e.timer), InsertedAt(q, k, e))
    {
    }

    lemma MirrorsDelete(order: seq<Timer>, q: seq<Entry>, k: nat)
      requires Mirrors(order, q) && k < |q|
      ensures Mirrors(RemovedAt(order, k), RemovedAt(q, k))
    {
    }

    lemma NotQueued(timer: Timer)
      requires Consistent() && timer !in tree.nodes
      ensures Absent(schedule.queue, timer)
      ensures Without(schedule.queue, timer) == schedule.queue
    {
      forall i | 0 <= i < |schedule.queue| ensures schedule.queue[i].timer != timer {
        assert tree.Order()[i] in tree.nodes;
      }
      WithoutNone(schedule.queue, timer);
    }

    method Detach(timer: Timer)
      requires Consistent() && timer in tree.nodes
      modifies `schedule, tree
      modifies tree.nodes`left, tree.nodes`right, tree.nodes`parent, tree.nodes`color
      ensures Consistent() && tree.nodes == old(tree.nodes) - {timer}
      ensures schedule == Stopped(old(schedule), timer)
    {
      ghost var q, order := schedule.queue, tree.Order();
      ghost var i := tree.Delete(timer);
      MirrorsDelete(order, q, i);
      OtherTimers(schedule, i);
      WithoutAt(q, i);
      WithoutOrderly(schedule, timer);
      schedule := Stopped(schedule, timer);
      OrderInTree();
    }

    /** A timer object from the pool, null when the pool is empty. */
    method Add() returns (timer: Timer?)
      requires Valid()
      modifies `avail, `timers
      ensures Valid() && schedule == old(schedule)
      ensures timer == null <==> old(avail) == 0
      ensures timer == null ==> avail == old(avail) && timers == old(timers)
      ensures timer != null ==>
              fresh(timer) && avail == old(avail) - 1 && timers == old(timers) + {timer} && !timer.running
    {
      if avail == 0 {
        return null;
      }
      timer := new Timer();
      avail := avail - 1;
      timers := timers + {timer};
      assert Consistent();
    }

    /** A running timer leaves the tree; the flag is set for its return. */
    method MarkRunning(timer: Timer)
      requires Valid() && timer in timers
      modifies `schedule, tree, timer`running
      modifies tree.nodes`left, tree.nodes`right, tree.nodes`parent, tree.nodes`color
      ensures Consistent() && tree.nodes == old(tree.nodes) - {timer}
      ensures schedule == Stopped(old(schedule), timer)
      ensures forall t :: t in timers ==> (t.running <==> t in tree.nodes || t == timer)
    {
      NotQueuedUnless(timer);
      if timer.running {
        Detach(timer);
      }
      timer.running := true;
    }

    method Start(timer: Timer, duration: int, now: int)
      requires Valid() && timer in timers && duration != 0
      modifies `schedule, tree, timer`timeout, timer`running
      modifies timers`left, timers`right, timers`parent, timers`color
      ensures Valid() && schedule == Started(old(schedule), timer, now + duration)
    {
      MarkRunning(timer);
      AddTimerNode(timer, duration, now);
    }

    method Stop(timer: Timer)
      requires Valid() && timer in timers
      modifies `schedule, tree, timer`running
      modifies timers`left, timers`right, timers`parent, timers`color
      ensures Valid() && schedule == Stopped(old(schedule), timer) && !timer.running
    {
      NotQueuedUnless(timer);
      if !timer.running {
        return;
      }
      timer.running := false;
      Detach(timer);
    }

    method Delete(timer: Timer)
      requires Valid() && timer in timers
      modifies `schedule, `avail, `timers, tree, timer`running
      modifies timers`left, timers`right, timers`parent, timers`color
      ensures Valid() && schedule == Stopped(old(schedule), timer)
      ensures timers == old(timers) - {timer} && avail == old(avail) + 1
    {
      Stop(timer);
      if avail < capacity {
        avail := avail + 1;
      }
      timers := timers - {timer};
    }

    /** How long to wait for the first timer: -1 means for ever. */
    method Next(current: int) returns (wait: int)
      requires Valid()
      ensures wait == if schedule.queue == [] then -1
                      else if schedule.queue[0].timeout > current then schedule.queue[0].timeout - current
                      else 0
    {
      var rbnode := tree.First();
      if rbnode != null {
        assert schedule.queue[0].timer == rbnode && rbnode in tree.nodes;
        if rbnode.timeout > current {
          return rbnode.timeout - current;
        } else {
          return 0;
        }
      }
      return -1;
    }

    method CollectOne(list: Lists.List, rbnode: Timer, ghost order: seq<Timer>, ghost k: nat) returns (next: Timer?)
      requires Valid() && order == tree.Order() && k < |order| && rbnode == order[k] && list.Links(order[..k])
      modifies list, timers`prev, timers`next
      ensures list.Links(order[..k + 1]) && next == Lists.Nth(order, k + 1)
    {
      assert rbnode in tree.nodes;
      OrderDistinct(tree.mem, tree.shape, tree.root, null);
      ghost var linked := order[..k];
      assert rbnode !in linked && linked + [rbnode] == order[..k + 1];
      list.Add(rbnode, linked);
      assert list.Links(order[..k + 1]);
      ghost var i;
      next, i := tree.Next(rbnode);
      assert i == k;
    }

    /** Links the due timers, first due first, into a local list. */
    method CollectDue(current: int) returns (list: Lists.List, ghost batch: seq<Timer>)
      requires Valid()
      modifies timers`prev, timers`next
      ensures fresh(list) && list.Links(batch) && batch == Due(schedule, current)
      ensures forall t :: t in batch ==> t in timers
    {
      ghost var order, q, k := tree.Order(), schedule.queue, 0;
      var rbnode := tree.First();
      list := new Lists.List();
      while rbnode != null
        invariant 0 <= k <= |order| && rbnode == Lists.Nth(order, k)
        invariant list.Links(order[..k])
        invariant forall i :: 0 <= i < k ==> q[i].timeout <= current
        decreases |order| - k
      {
        assert q[k].timeout == rbnode.timeout;
        if rbnode.timeout > current {
          break;
        }
        rbnode := CollectOne(list, rbnode, order, k);
        k := k + 1;
      }
      DueOrder(current, k);
      batch := order[..k];
    }

    /** The due timers are the first ones in the tree's order. */
    lemma DueOrder(current: int, k: nat)
      requires Valid() && k <= |schedule.queue|
      requires forall i :: 0 <= i < k ==> schedule.queue[i].timeout <= current
      requires k < |schedule.queue| ==> schedule.queue[k].timeout > current
      ensures tree.Order()[..k] == Due(schedule, current)
      ensures forall t :: t in tree.Order()[..k] ==> t in timers
    {
      DueCountIs(schedule.queue, current, k);
      assert tree.Order()[..k] == TimersOf(schedule.queue[..k]);
    }

    method Perform(a: Action)
      requires Valid() && a.timer in timers && (a.Start? ==> a.duration != 0)
      modifies `schedule, tree, timers`timeout, timers`running
      modifies timers`left, timers`right, timers`parent, timers`color
      ensures Valid() && schedule == Done(old(schedule), a)
      ensures schedule == if a.Start? then Started(old(schedule), a.timer, a.now + a.duration)
                          else Stopped(old(schedule), a.timer)
    {
      match a {
        case Start(t, duration, now) => Start(t, duration, now);
        case Stop(t) => Stop(t);
      }
    }

    method RunCallback(actions: seq<Action>)
      requires Valid()
      requires Sane(actions)
      modifies `schedule, tree, timers`timeout, timers`running
      modifies timers`left, timers`right, timers`parent, timers`color
      ensures Valid() && schedule == AllDone(old(schedule), actions)
    {
      for i := 0 to |actions|
        invariant Valid() && schedule == AllDone(old(schedule), actions[..i])
      {
        var a := actions[i];
        assert a in actions;
        AllDoneSnoc(old(schedule), actions[..i], a);
        assert actions[..i] + [a] == actions[..i + 1];
        Perform(a);
      }
      assert actions[..|actions|] == actions;
    }

    method FireOne(timer: Timer, script: Timer -> seq<Action>, ghost s0: Schedule, ghost earlier: seq<Timer>)
      requires Valid() && timer in timers && Sane(script(timer)) && schedule == Fired(s0, earlier, script)
      modifies `schedule, tree, timers`timeout, timers`running
      modifies timers`left, timers`right, timers`parent, timers`color
      ensures Valid() && schedule == Fired(s0, earlier + [timer], script)
    {
      FiredSnoc(s0, earlier, script, timer);
      Stop(timer);
      RunCallback(script(timer));
    }

    /** Callbacks name timers of this manager only, and no start has a zero duration. */
    ghost predicate Sane(actions: seq<Action>)
      reads `timers
    {
      forall a :: a in actions ==> a.timer in timers && (a.Start? ==> a.duration != 0)
    }

    method Expire(current: int, script: Timer -> seq<Action>) returns (fired: seq<Timer>)
      requires Valid() && forall t :: t in timers ==> Sane(script(t))
      modifies `schedule, tree, timers`timeout, timers`running, timers`prev, timers`next
      modifies timers`left, timers`right, timers`parent, timers`color
      ensures Valid() && fired == Due(old(schedule), current)
      ensures schedule == Fired(old(schedule), fired, script)
    {
      var list;
      ghost var batch;
      list, batch := CollectDue(current);
      fired := FireAll(list, batch, script);
    }

    /** The timers `fired` of the batch have been called; `lnode` is next. */
    ghost predicate Firing(list: Lists.List, batch: seq<Timer>, script: Timer -> seq<Action>, s0: Schedule,
                           fired: seq<Timer>, lnode: Timer?)
      reads this, tree, tree.nodes`timeout, timers`running
      reads tree.nodes`left, tree.nodes`right, tree.nodes`parent, tree.nodes`color
      reads list, batch`prev, batch`next
    {
      && Valid() && list.Links(batch) && fired <= batch && lnode == Lists.Nth(batch, |fired|)
      && schedule == Fired(s0, fired, script)
    }

    method FireNext(list: Lists.List, lnode: Timer, script: Timer -> seq<Action>, ghost batch: seq<Timer>,
                    ghost s0: Schedule, ghost fired: seq<Timer>) returns (next: Timer?)
      requires Firing(list, batch, script, s0, fired, lnode) && lnode in timers && Sane(script(lnode))
      modifies `schedule, tree, timers`timeout, timers`running
      modifies timers`left, timers`right, timers`parent, timers`color
      ensures Firing(list, batch, script, s0, fired + [lnode], next) && |fired| < |batch|
    {
      assert batch[..|fired|] + [lnode] == batch[..|fired| + 1];
      FireOne(lnode, script, s0, fired);
      next := lnode.next;
    }

    method FireAll(list: Lists.List, ghost batch: seq<Timer>, script: Timer -> seq<Action>) returns (fired: seq<Timer>)
      requires Valid() && list.Links(batch)
      requires forall t :: t in batch ==> t in timers && Sane(script(t))
      modifies `schedule, tree, timers`timeout, timers`running
      modifies timers`left, timers`right, timers`parent, timers`color
      ensures Valid() && fired == batch && schedule == Fired(old(schedule), batch, script)
    {
      fired := [];
      var lnode := list.next;
      while lnode != null
        invariant Firing(list, batch, script, old(schedule), fired, lnode)
        decreases |batch| - |fired|
      {
        assert lnode in batch;
        var next := FireNext(list, lnode, script, batch, old(schedule), fired);
        fired := fired + [lnode];
        lnode := next;
      }
    }

    lemma NotQueuedUnless(timer: Timer)
      requires Valid()
      ensures timer in timers && !timer.running ==> Without(schedule.queue, timer) == schedule.queue
    {
      if timer in timers && !timer.running {
        NotQueued(timer);
      }
    }

    ghost predicate InTree(order: seq<Timer>)
      reads tree`nodes
    {
      forall i :: 0 <= i < |order| ==> order[i] in tree.nodes
    }

    lemma RootPosition(order: seq<Timer>, q: seq<Entry>, a: seq<Timer>, t: Tree, b: seq<Timer>)
      requires Mirrors(order, q) && InTree(order) && t.Branch? && order == a + InOrder(t) + b
      ensures var i := |a| + |InOrder(t.left)|;
              i < |a| + |InOrder(t)| <= |q| && q[i].timeout == t.node.timeout && t.node in tree.nodes
    {
      var i := |a| + |InOrder(t.left)|;
      assert order[i] == t.node;
    }
  }

  lemma OtherTimers(s: Schedule, k: nat)
    requires Orderly(s) && k < |s.queue|
    ensures forall i :: 0 <= i < |s.queue| && i != k ==> s.queue[i].timer != s.queue[k].timer
  {
  }

  /** The place for `timeout` is between `lo` and `hi`. */
  ghost predicate Brackets(q: seq<Entry>, lo: nat, hi: nat, timeout: int) {
    lo <= hi <= |q| &&
    (forall i :: 0 <= i < lo ==> q[i].timeout <= timeout) &&
    (forall i :: hi <= i < |q| ==> timeout < q[i].timeout)
  }

  lemma NarrowLeft(s: Schedule, i: nat, lo: nat, hi: nat, timeout: int)
    requires Orderly(s) && Brackets(s.queue, lo, hi, timeout) && lo <= i < hi && timeout < s.queue[i].timeout
    ensures Brackets(s.queue, lo, i, timeout)
  {
    forall j | i <= j < |s.queue| ensures timeout < s.queue[j].timeout {
      assert j > i ==> Earlier(s.queue[i], s.queue[j]);
    }
  }

  lemma NarrowRight(s: Schedule, i: nat, lo: nat, hi: nat, timeout: int)
    requires Orderly(s) && Brackets(s.queue, lo, hi, timeout) && lo <= i < hi && s.queue[i].timeout <= timeout
    ensures Brackets(s.queue, i + 1, hi, timeout)
  {
    forall j | 0 <= j < i + 1 ensures s.queue[j].timeout <= timeout {
      assert j < i ==> Earlier(s.queue[j], s.queue[i]);
    }
  }
}
