/** The ready ring of kernel/proc/scheduler/scheduler.c: adding threads and picking the next one. Saving
    contexts, the zombie sweep and switching stacks are not modelled. */
module Scheduler {
  datatype State = Ready | Running | Blocked | Terminated

  predicate Runnable(s: State) { s == Ready || s == Running }

  class Thread {
    var state: State
    var next: Thread?

    constructor (state: State)
      ensures this.state == state && next == null
    {
      this.state := state;
      next := null;
    }
  }

  // ---- picking on a ring of n places ----

  /** The place after `i`. */
  function Succ(i: nat, n: nat): (j: nat)
    requires i < n
    ensures j < n
  {
    if i + 1 == n then 0 else i + 1
  }

  /** How many steps forward lead from `i` to `j`, at least one. */
  function Distance(i: nat, j: nat, n: nat): (d: nat)
    requires i < n && j < n
    ensures 1 <= d <= n
  {
    if i < j then j - i else j + n - i
  }

  /** The place `d` steps after `i`. */
  function Ahead(i: nat, d: nat, n: nat): (j: nat)
    requires i < n && d <= n
    ensures j < n
  {
    if i + d < n then i + d else i + d - n
  }

  /** `p` is the first runnable place after `c` in ring order, `c` itself coming last. */
  ghost predicate FirstAfter(run: seq<bool>, c: nat, p: nat) {
    && c < |run| && p < |run| && run[p]
    && forall q :: 0 <= q < |run| && run[q] ==> Distance(c, p, |run|) <= Distance(c, q, |run|)
  }

  lemma DistanceStep(c: nat, p: nat, t: nat, n: nat)
    requires c < n && p < n && t < n && Distance(c, p, n) < Distance(c, t, n)
    ensures Distance(p, t, n) == Distance(c, t, n) - Distance(c, p, n)
  {
  }

  /** Bounded waiting: over consecutive picks on a fixed ring, while other threads start and stop being
      runnable at will, a thread that stays runnable is picked within as many picks as its distance,
      so within the size of the ring. */
  lemma {:induction false} PickedWithin(runs: seq<seq<bool>>, picks: seq<nat>, c: nat, t: nat, n: nat) returns (k: nat)
    requires c < n && t < n && |picks| == |runs| >= Distance(c, t, n)
    requires forall i :: 0 <= i < |runs| ==> |runs[i]| == n && runs[i][t]
    requires FirstAfter(runs[0], c, picks[0])
    requires forall i :: 1 <= i < |runs| ==> FirstAfter(runs[i], picks[i - 1], picks[i])
    ensures k < Distance(c, t, n) && picks[k] == t
    decreases Distance(c, t, n)
  {
    var p := picks[0];
    if p == t {
      k := 0;
    } else {
      assert runs[0][t];
      assert Distance(c, p, n) != Distance(c, t, n);
      DistanceStep(c, p, t, n);
      var runs', picks' := runs[1..], picks[1..];
      assert FirstAfter(runs[1], picks[0], picks[1]);
      forall i | 1 <= i < |runs'| ensures FirstAfter(runs'[i], picks'[i - 1], picks'[i]) {
        assert FirstAfter(runs[i + 1], picks[i], picks[i + 1]);
      }
      k := PickedWithin(runs', picks', p, t, n);
      k := k + 1;
    }
  }

  lemma AheadAndDistance(c: nat, d: nat, n: nat)
    requires c < n && 1 <= d <= n
    ensures Distance(c, Ahead(c, d, n), n) == d
    ensures forall q :: 0 <= q < n && Distance(c, q, n) == d ==> q == Ahead(c, d, n)
    ensures d < n ==> Succ(Ahead(c, d, n), n) == Ahead(c, d + 1, n)
  {
  }

  lemma AheadWraps(c: nat, n: nat)
    requires c < n
    ensures Succ(Ahead(c, n, n), n) == Ahead(c, 1, n)
  {
  }

  lemma AheadOne(c: nat, n: nat)
    requires c < n
    ensures Ahead(c, 1, n) == Succ(c, n)
  {
  }

  /** No runnable place is within `d` steps of `c`. */
  ghost predicate NoneWithin(run: seq<bool>, c: nat, d: nat)
    requires c < |run|
  {
    forall q :: 0 <= q < |run| && run[q] ==> Distance(c, q, |run|) > d
  }

  lemma NothingWithin(run: seq<bool>, c: nat)
    requires c < |run|
    ensures NoneWithin(run, c, 0)
  {
  }

  /** Passing over one more place that is not runnable. */
  lemma PassOne(run: seq<bool>, c: nat, d: nat)
    requires c < |run| && d < |run| && NoneWithin(run, c, d) && !run[Ahead(c, d + 1, |run|)]
    ensures NoneWithin(run, c, d + 1)
    ensures Succ(Ahead(c, d + 1, |run|), |run|) == Ahead(c, if d + 1 < |run| then d + 2 else 1, |run|)
  {
    AheadAndDistance(c, d + 1, |run|);
    AheadWraps(c, |run|);
  }

  /** Where the search has stopped: at the first runnable place, or after a whole round. */
  lemma Stopped(run: seq<bool>, c: nat, d: nat, p: nat)
    requires c < |run| && d <= |run| && p == Ahead(c, if d < |run| then d + 1 else 1, |run|)
    requires NoneWithin(run, c, d) && (run[p] || d == |run|)
    ensures if true in run then FirstAfter(run, c, p) else p == Ahead(c, 1, |run|)
  {
    if true in run {
      var r :| 0 <= r < |run| && run[r];
      assert Distance(c, r, |run|) > d;
      AheadAndDistance(c, d + 1, |run|);
    } else {
      assert forall q :: 0 <= q < |run| ==> run[q] in run;
    }
  }

  ghost function Runnables(states: seq<State>): (r: seq<bool>)
    ensures |r| == |states| && forall i :: 0 <= i < |states| ==> r[i] == Runnable(states[i])
  {
    seq(|states|, i requires 0 <= i < |states| => Runnable(states[i]))
  }

  /** Consecutive picks from place `start` on, the `i`-th one made when the threads had `states[i]`. */
  ghost predicate Trace(states: seq<seq<State>>, start: nat, picks: seq<nat>) {
    && |picks| == |states|
    && forall i {:trigger picks[i]} :: 0 <= i < |states| ==>
         FirstAfter(Runnables(states[i]), if i == 0 then start else picks[i - 1], picks[i])
  }

  lemma EmptyTrace(start: nat)
    ensures Trace([], start, [])
  {
  }

  lemma GrowTrace(states: seq<seq<State>>, start: nat, picks: seq<nat>, ss: seq<State>, p: nat)
    requires Trace(states, start, picks) && FirstAfter(Runnables(ss), if picks == [] then start else picks[|picks| - 1], p)
    ensures Trace(states + [ss], start, picks + [p])
  {
    hide FirstAfter;
  }

  /** Bounded waiting for a trace. */
  lemma TracePicked(states: seq<seq<State>>, start: nat, picks: seq<nat>, t: nat, n: nat) returns (k: nat)
    requires start < n && t < n <= |states| && Trace(states, start, picks)
    requires forall i :: 0 <= i < |states| ==> |states[i]| == n && Runnable(states[i][t])
    ensures k < Distance(start, t, n) && k < |picks| && picks[k] == t
  {
    hide FirstAfter;
    var runs := seq(|states|, i requires 0 <= i < |states| => Runnables(states[i]));
    assert FirstAfter(Runnables(states[0]), start, picks[0]);
    forall i | 1 <= i < |runs| ensures FirstAfter(runs[i], picks[i - 1], picks[i]) {
      assert FirstAfter(Runnables(states[i]), picks[i - 1], picks[i]);
    }
    k := PickedWithin(runs, picks, start, t, n);
  }

  // ---- the scheduler ----

  /** The links from `thread` on lead around `cycle`. */
  ghost predicate IsCycle(cycle: seq<Thread>, thread: Thread)
    reads cycle
  {
    && cycle != [] && cycle[0] == thread
    && (forall i, j :: 0 <= i < j < |cycle| ==> cycle[i] != cycle[j])
    && forall i {:trigger cycle[i].next} :: 0 <= i < |cycle| ==> cycle[i].next == cycle[Succ(i, |cycle|)]
  }

  class Scheduler {
    var current: Thread?
    var ready: Thread?
    ghost var ring: seq<Thread>     // the threads from ready on

    ghost predicate Valid()
      reads this, ring
    {
      && (ready == null <==> ring == []) && (ready != null ==> ready == ring[0])
      && (forall i, j :: 0 <= i < j < |ring| ==> ring[i] != ring[j])
      && (forall i {:trigger ring[i].next} :: 0 <= i < |ring| ==> ring[i].next == ring[Succ(i, |ring|)])
      && (current != null ==> current in ring)
    }

    ghost function Runs(): (r: seq<bool>)
      reads this, ring
      ensures |r| == |ring| && forall i :: 0 <= i < |ring| ==> r[i] == Runnable(ring[i].state)
    {
      seq(|ring|, i requires 0 <= i < |ring| reads this, ring => Runnable(ring[i].state))
    }

    constructor ()
      ensures Valid() && ring == [] && current == null
    {
      current, ready, ring := null, null, [];
    }

    /** scheduler_add_thread: the new thread goes to the end of the ring. */
    method AddThread(thread: Thread)
      requires Valid() && thread !in ring
      modifies this`ready, this`ring, thread`next, ring
      ensures Valid() && ring == old(ring) + [thread] && current == old(current)
      ensures thread.state == old(thread.state) && forall t :: t in old(ring) ==> t.state == old(t.state)
    {
      if ready == null {
        ready := thread;
        thread.next := thread;
        ring := [thread];
      } else {
        var last: Thread := ready;
        ghost var i := 0;
        while last.next != ready
          invariant 0 <= i < |ring| && last == ring[i]
          decreases |ring| - i
        {
          assert ring[i].next == ring[Succ(i, |ring|)];
          last := last.next;
          i := i + 1;
        }
        assert ring[i].next == ring[Succ(i, |ring|)];
        assert i == |ring| - 1;
        last.next := thread;
        thread.next := ready;
        ring := ring + [thread];
      }
    }

    /** scheduler_set_current_thread. An empty ring becomes whatever the thread's links lead around: `cycle`
        is a proposal for it. The ring is well formed if and only if the thread is none, or one of the ring,
        or the ring was empty and `cycle` is a cycle of links from the thread on. */
    method SetCurrent(thread: Thread?, ghost cycle: seq<Thread>)
      requires Valid()
      modifies this`current, this`ready, this`ring
      ensures current == thread && ring == if old(ring) == [] && thread != null then cycle else old(ring)
      ensures Valid() <==> thread == null || thread in old(ring) || (old(ring) == [] && IsCycle(cycle, thread))
    {
      current := thread;
      if ready == null {
        ready := thread;
        ring := if thread == null then [] else cycle;
      }
    }

    /** The selection part of scheduler_schedule, counting from place `c`: the current thread's, or the
        last one when there is no current thread. When some thread is runnable, the first one after `c`
        is picked. When none is, the thread after `c` is taken as it stands: a terminated one leaves no
        current thread, a blocked one is set running. No other thread changes. */
    method Schedule() returns (ghost c: nat, ghost p: nat)
      requires Valid() && ready != null
      modifies this`current, ring
      ensures Valid() && ring == old(ring) && c < |ring| && p < |ring|
      ensures if old(current) == null then c == |ring| - 1 else old(current) == ring[c]
      ensures true in old(Runs()) ==> FirstAfter(old(Runs()), c, p) && current == ring[p] && current.state == Running
      ensures true !in old(Runs()) ==> p == Succ(c, |ring|)
      ensures true !in old(Runs()) && old(ring[p].state) == Terminated ==> current == null && ring[p].state == Terminated
      ensures true !in old(Runs()) && old(ring[p].state) != Terminated ==> current == ring[p] && old(ring[p].state) == Blocked && ring[p].state == Running
      ensures forall i :: 0 <= i < |ring| && i != p ==> ring[i].state == old(ring[i].state)
    {
      hide FirstAfter, Distance, Ahead, Succ, NoneWithin;
      c := StartOf();
      AheadOne(c, |ring|);
      Next(c);
      var size := QueueSize();
      assert Runs() == old(Runs());
      p := SkipUnrunnable(size, c);
      assert Runs() == old(Runs());
      assert Runs()[p] == Runnable(ring[p].state);
      Dispatch(p);
    }

    /** The start of the selection: the thread after the current one, or the first. */
    method Next(ghost c: nat)
      requires Valid() && c < |ring| && if current == null then c == |ring| - 1 else current == ring[c]
      modifies this`current
      ensures Valid() && current == ring[Succ(c, |ring|)]
    {
      if current == null {
        current := ready;
      } else {
        assert ring[c].next == ring[Succ(c, |ring|)];
        current := current.next;
      }
    }

    /** The end of the selection: a terminated thread is dropped, any other set running. */
    method Dispatch(ghost p: nat)
      requires Valid() && p < |ring| && current == ring[p]
      modifies this`current, ring
      ensures Valid()
      ensures old(ring[p].state) == Terminated ==> current == null && ring[p].state == Terminated
      ensures old(ring[p].state) != Terminated ==> current == ring[p] && ring[p].state == Running
      ensures forall i :: 0 <= i < |ring| && i != p ==> ring[i].state == old(ring[i].state)
    {
      if current == null || current.state == Terminated {
        current := null;
        return;
      }
      current.state := Running;
    }

    /** The place that the search counts from. */
    lemma StartOf() returns (c: nat)
      requires Valid() && ready != null
      ensures c < |ring| && if current == null then c == |ring| - 1 else current == ring[c]
    {
      if current == null {
        c := |ring| - 1;
      } else {
        c :| c < |ring| && ring[c] == current;
      }
    }

    /** The loop that passes over blocked and terminated threads, once around the ring at most. */
    method SkipUnrunnable(size: nat, ghost c: nat) returns (ghost p: nat)
      requires Valid() && c < |ring| == size && current == ring[Ahead(c, 1, size)]
      modifies this`current
      ensures Valid() && p < |ring| && current == ring[p]
      ensures if true in old(Runs()) then FirstAfter(old(Runs()), c, p) && Runnable(ring[p].state) else p == Ahead(c, 1, size)
    {
      hide Distance, Ahead, Succ, FirstAfter, NoneWithin;
      ghost var runs := Runs();
      var checked := 0;
      NothingWithin(runs, c);
      p := Ahead(c, 1, size);
      while current != null && current.state != Ready && current.state != Running && checked < size
        invariant 0 <= checked <= size && p == Ahead(c, if checked < size then checked + 1 else 1, size)
        invariant current == ring[p] && NoneWithin(runs, c, checked)
        decreases size - checked
      {
        assert ring[p].next == ring[Succ(p, size)];
        assert !runs[p];
        PassOne(runs, c, checked);
        current := current.next;
        p := Succ(p, size);
        checked := checked + 1;
      }
      assert runs[p] == Runnable(ring[p].state);
      Stopped(runs, c, checked, p);
      assert Runs() == runs;
    }

    /** Consecutive calls on a fixed ring. Before each call the rest of the kernel sets the states of all
        threads to anything that leaves thread `t` runnable. Every call picks the first runnable thread
        after the one before it, and `t` is picked within as many calls as its distance, so within
        ring-size calls. */
    method Rounds(threads: seq<Thread>, states: seq<seq<State>>, ghost t: nat)
      returns (ghost start: nat, ghost picks: seq<nat>, ghost k: nat)
      requires Valid() && threads == ring && t < |ring| && |states| >= |ring|
      requires forall i :: 0 <= i < |states| ==> |states[i]| == |ring| && Runnable(states[i][t])
      modifies this`current, ring
      ensures Valid() && ring == old(ring) && start < |ring| && |picks| == |states|
      ensures if old(current) == null then start == |ring| - 1 else old(current) == ring[start]
      ensures Trace(states, start, picks)
      ensures picks[|picks| - 1] < |ring| && current == ring[picks[|picks| - 1]]
      ensures k < Distance(start, t, |ring|) && picks[k] == t
    {
      hide Trace, Distance;
      start := StartOf();
      picks := [];
      EmptyTrace(start);
      var i := 0;
      ghost var c := start;
      assert states[..0] == [];
      while i < |states|
        invariant 0 <= i <= |states| && Valid() && ring == threads && |picks| == i && c < |ring|
        invariant c == if i == 0 then start else picks[i - 1]
        invariant if current == null then i == 0 && old(current) == null && c == |ring| - 1 else current == ring[c]
        invariant Trace(states[..i], start, picks)
        invariant i == 0 ==> current == old(current)
      {
        ghost var p := Round(threads, states[i], t, c);
        GrowTrace(states[..i], start, picks, states[i], p);
        assert states[..i + 1] == states[..i] + [states[i]];
        picks, c := picks + [p], p;
        i := i + 1;
      }
      assert states[..i] == states;
      k := TracePicked(states, start, picks, t, |ring|);
    }

    /** One call, after the states have been set. */
    method Round(threads: seq<Thread>, states: seq<State>, ghost t: nat, ghost c: nat) returns (ghost p: nat)
      requires Valid() && threads == ring && t < |ring| == |states| && Runnable(states[t]) && c < |ring|
      requires if current == null then c == |ring| - 1 else current == ring[c]
      modifies this`current, ring
      ensures Valid() && ring == old(ring) && p < |ring| && current == ring[p] && FirstAfter(Runnables(states), c, p)
    {
      hide FirstAfter, Distance;
      SetStates(threads, states);
      ghost var r := Runs();
      assert r == Runnables(states) && r[t];
      ghost var d;
      d, p := Schedule();
      SamePlace(c, d);
    }

    lemma SamePlace(c: nat, d: nat)
      requires Valid() && c < |ring| && d < |ring|
      ensures ring[c] == ring[d] ==> c == d
    {
    }

    method SetStates(threads: seq<Thread>, states: seq<State>)
      requires Valid() && threads == ring && |states| == |ring|
      modifies ring
      ensures Valid() && forall i :: 0 <= i < |ring| ==> ring[i].state == states[i]
    {
      var i := 0;
      while i < |threads|
        invariant 0 <= i <= |threads| && Valid()
        invariant forall j :: 0 <= j < i ==> ring[j].state == states[j]
      {
        threads[i].state := states[i];
        i := i + 1;
      }
    }

    /** The counting loop of scheduler_schedule. */
    method QueueSize() returns (size: nat)
      requires Valid() && ready != null
      ensures size == |ring|
    {
      size := 1;
      var temp: Thread := ready.next;
      assert ring[0].next == ring[Succ(0, |ring|)];
      while temp != ready
        invariant 1 <= size <= |ring| && temp == ring[if size == |ring| then 0 else size]
        decreases |ring| - size
      {
        assert ring[size].next == ring[Succ(size, |ring|)];
        temp := temp.next;
        size := size + 1;
      }
    }
  }
}
