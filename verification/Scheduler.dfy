/**
 * kernel/proc/scheduler.c over the intrusive circular list of kernel/lib/list.h. A process is
 * identified with the list node embedded in it; a context switch is the change of the running
 * process.
 */
module Scheduler {
  import opened SchedulerModel

  datatype RunState = Ready | Running | Blocked | Terminated

  class Node {
    var next: Node
    var prev: Node
    var state: RunState

    /** list_init */
    constructor ()
      ensures next == this && prev == this && state == Ready
    {
      next, prev, state := this, this, Ready;
    }
  }

  ghost function QueueOf(procs: seq<Node>, current: Node): State<Node>
  {
    State(procs, current)
  }

  /** The nodes of s hang between head and head, in order, linked both ways. */
  ghost predicate Linked(head: Node, s: seq<Node>)
    reads head, s
  {
    && head !in s && Distinct(s)
    && head.next == (if s == [] then head else s[0]) && head.prev == (if s == [] then head else s[|s| - 1])
    && (s != [] ==> s[0].prev == head && s[|s| - 1].next == head)
    && forall i, j :: 0 <= i < |s| && 0 <= j < |s| && j == i + 1 ==> s[i].next == s[j] && s[j].prev == s[i]
  }

  /** list_add_tail */
  method AddTail(head: Node, node: Node, ghost s: seq<Node>)
    requires Linked(head, s) && node != head && node !in s
    modifies head`next, head`prev, node`next, node`prev, head.prev`next
    ensures Linked(head, s + [node])
  {
    node.next := head;
    node.prev := head.prev;
    head.prev.next := node;
    head.prev := node;
  }

  /** list_del */
  method Del(node: Node, ghost head: Node, ghost s: seq<Node>, ghost i: nat)
    requires Linked(head, s) && i < |s| && s[i] == node
    modifies node`next, node`prev, node.prev`next, node.next`prev
    ensures Linked(head, s[..i] + s[i + 1..])
    ensures node.next == node && node.prev == node
  {
    ghost var s' := s[..i] + s[i + 1..];
    assert node.prev == (if i > 0 then s[i - 1] else head) && node.next == (if i + 1 < |s| then s[i + 1] else head);
    assert forall k :: 0 <= k < |s'| ==> s'[k] == s[if k < i then k else k + 1];
    node.prev.next := node.next;
    node.next.prev := node.prev;
    node.next := node;
    node.prev := node;
    if s' != [] {
      assert s'[0] == s[if i > 0 then 0 else 1] && s'[|s'| - 1] == s[if i < |s| - 1 then |s| - 1 else |s| - 2];
    }
  }

  class Scheduler {
    const queue: Node
    var current: Node?
    var active: bool

    /** The ready queue from its head. */
    ghost var procs: seq<Node>

    /** The queue is well linked, holds only ready processes and at most the running one besides, and the
        running process is in it. */
    ghost predicate Valid()
      reads this, queue, procs, current
    {
      && Linked(queue, procs) && current != queue
      && (forall p :: p in procs ==> p.state == Ready || (p.state == Running && p == current))
      && (current != null && current.state == Running ==> current in procs)
    }

    /** scheduler_init */
    constructor ()
      ensures Valid() && fresh(queue) && procs == [] && current == null && !active
    {
      queue := new Node();
      current, active, procs := null, false, [];
    }

    /** scheduler_add */
    method Add(proc: Node)
      requires Valid() && proc != queue && proc !in procs
      modifies this`procs, queue, procs, proc
      ensures Valid() && procs == old(procs) + [proc] && proc.state == Ready
      ensures forall p :: p in old(procs) ==> p.state == old(p.state)
    {
      proc.state := Ready;
      AddTail(queue, proc, procs);
      procs := procs + [proc];
    }

    /** scheduler_start: the head of the queue runs and stays at the head. */
    method Start()
      requires Valid() && procs != [] && current == null
      modifies this`current, this`active, procs
      ensures Valid() && active && current == procs[0] && current.state == Running && procs == old(procs)
    {
      var first := queue.next;
      first.state := Running;
      current := first;
      active := true;
    }

    /** The position of a process in the queue. */
    ghost function Position(p: Node): (i: nat)
      requires p in procs
      reads this
      ensures i < |procs| && procs[i] == p
    {
      var i :| 0 <= i < |procs| && procs[i] == p;
      i
    }

    /** A process moves to the back of the queue. */
    method Requeue(p: Node, ghost all: set<Node>)
      requires Linked(queue, procs) && p in procs && forall x :: x in procs ==> x in all
      modifies this`procs, queue`next, queue`prev, all`next, all`prev
      ensures Linked(queue, procs) && procs == Remove(old(procs), p) + [p]
      ensures forall x :: x in procs <==> x in old(procs)
    {
      hide Remove;
      hide Distinct;
      ghost var i := Position(p);
      RemoveAt(procs, i);
      Neighbours(queue, procs, i);
      Moved(procs, i);
      ghost var s := procs[..i] + procs[i + 1..];
      Del(p, queue, procs, i);
      LastOf(queue, s);
      AddTail(queue, p, s);
      procs := s + [p];
    }

    /** schedule */
    method Schedule(ghost all: set<Node>)
      requires Valid() && forall x :: x in procs ==> x in all
      modifies this`procs, this`current, queue, all
      ensures Valid() && forall x :: x in procs <==> x in old(procs)
      ensures forall x :: x in all && x !in old(procs) && x != queue ==> x.state == old(x.state)
      ensures old(procs) == [] || !active || old(procs)[0] == old(current) ==>
        procs == old(procs) && current == old(current) && forall x :: x in all && x != queue ==> x.state == old(x.state)
      ensures old(procs) != [] && active && old(procs)[0] != old(current) ==>
        && procs != [] && current == old(procs)[0] && current.state == Running
        && (if old(current) != null && old(current.state) == Running
            then old(current).state == Ready && QueueOf(procs, current) == Switch(QueueOf(old(procs), old(current)))
            else procs == old(procs)[1..] + [old(procs)[0]])
    {
      hide Remove;
      if queue.next == queue || !active {
        return;
      }
      var prev := current;
      var next := queue.next;
      if next == prev {
        return;
      }
      if prev != null && prev.state == Running {
        SwitchFrom(prev, next, all);
      } else {
        TakeNext(next, all);
      }
    }

    /** The running process goes to the back, the next one behind it, and that one runs. */
    method SwitchFrom(prev: Node, next: Node, ghost all: set<Node>)
      requires Valid() && procs != [] && next == procs[0] && prev == current && prev in procs && prev != next
      requires forall x :: x in procs ==> x in all
      modifies this`procs, this`current, queue, all
      ensures Valid() && current == next && next.state == Running && prev.state == Ready
      ensures forall x :: x in procs <==> x in old(procs)
      ensures forall x :: x in all && x !in old(procs) && x != queue ==> x.state == old(x.state)
      ensures QueueOf(procs, next) == Switch(QueueOf(old(procs), prev))
    {
      hide Remove;
      prev.state := Ready;
      assert Linked(queue, procs);
      StillHead(procs, prev);
      Requeue(prev, all);
      Requeue(next, all);
      next.state := RunState.Running;
      current := next;
      assert Linked(queue, procs);
    }

    /** Nothing that runs is in the queue: its head goes to the back and runs. */
    method TakeNext(next: Node, ghost all: set<Node>)
      requires Valid() && procs != [] && next == procs[0] && current != next && !(current != null && current.state == Running)
      requires forall x :: x in procs ==> x in all
      modifies this`procs, this`current, queue, all
      ensures forall x :: x in procs <==> x in old(procs)
      ensures forall x :: x in all && x !in old(procs) && x != queue ==> x.state == old(x.state)
      ensures Valid() && current == next && next.state == Running && procs == old(procs)[1..] + [next]
    {
      hide Remove;
      RemoveHead(procs);
      Requeue(next, all);
      next.state := RunState.Running;
      current := next;
      assert Linked(queue, procs);
    }

    /** scheduler_remove: the process leaves the queue, the others stay in order. */
    method Unlink(proc: Node)
      requires Linked(queue, procs) && proc in procs
      modifies this`procs, queue`next, queue`prev, procs`next, procs`prev
      ensures Linked(queue, procs) && procs == Remove(old(procs), proc) && proc !in procs
      ensures forall p :: p in procs <==> p in old(procs) && p != proc
      ensures proc.next == proc && proc.prev == proc
    {
      hide Remove;
      hide Distinct;
      ghost var i := Position(proc);
      RemoveAt(procs, i);
      Neighbours(queue, procs, i);
      Moved(procs, i);
      ghost var s := procs[..i] + procs[i + 1..];
      Del(proc, queue, procs, i);
      procs := s;
    }

    /** scheduler_block: the process leaves the queue; if it was running, the head of the rest runs. */
    method Block(proc: Node)
      requires Valid() && proc in procs
      modifies this`procs, this`current, queue, procs
      ensures Valid() && proc.state == Blocked && proc !in procs
      ensures var rest := Remove(old(procs), proc);
        if proc == old(current) && active && rest != []
        then current == rest[0] && rest[0].state == Running && procs == rest[1..] + [rest[0]]
        else current == old(current) && procs == rest
    {
      hide Remove;
      ghost var all := set p | p in procs;
      proc.state := Blocked;
      assert Linked(queue, procs);
      Unlink(proc);
      if proc == current {
        Schedule(all);
      }
    }

    /** scheduler_unblock */
    method Unblock(proc: Node)
      requires Valid() && proc != queue && proc !in procs && proc.state != Running
      modifies this`procs, queue, procs, proc
      ensures Valid() && procs == old(procs) + [proc] && proc.state == Ready
    {
      proc.state := Ready;
      assert Linked(queue, procs);
      Add(proc);
    }

    /** n timeslices: the processes that run after each, as the model's trace. */
    method Slices(n: nat) returns (ran: seq<Node>)
      requires Valid() && active && current != null && current.state == Running
      modifies this`procs, this`current, queue, procs
      ensures Valid() && current != null && current.state == Running
      ensures ran == Trace(QueueOf(old(procs), old(current)), n)
      ensures QueueOf(procs, current) == Switches(QueueOf(old(procs), old(current)), n)
    {
      hide Switch;
      ghost var s, all := QueueOf(procs, current), set p | p in procs;
      ran := [];
      var i := 0;
      while i < n
        invariant i <= n && Valid() && active && current != null && current.state == Running
        invariant ran == Trace(s, i) && QueueOf(procs, current) == Switches(s, i)
        invariant forall p :: p in procs ==> p in all
        modifies this`procs, this`current, queue, all
      {
        if procs[0] == current { SwitchStuck(QueueOf(procs, current)); }
        Schedule(all);
        ran := ran + [current];
        i := i + 1;
      }
    }
  }

  /** Moving element i to the back keeps the members. */
  lemma Moved(q: seq<Node>, i: nat)
    requires i < |q| && Distinct(q)
    ensures forall x :: x in q[..i] + q[i + 1..] <==> x in q && x != q[i]
    ensures forall x :: x in q[..i] + q[i + 1..] + [q[i]] <==> x in q
  {
    var s := q[..i] + q[i + 1..];
    forall x | x in s
      ensures x in q && x != q[i]
    {
      var k :| 0 <= k < |s| && s[k] == x;
      assert x == q[if k < i then k else k + 1];
    }
    assert q == q[..i] + [q[i]] + q[i + 1..];
  }

  lemma LastOf(head: Node, s: seq<Node>)
    requires Linked(head, s)
    ensures head.prev == head || head.prev in s
  {
  }

  lemma StillHead(q: seq<Node>, p: Node)
    requires p in q && p != q[0] && Distinct(q)
    ensures (Remove(q, p) + [p])[0] == q[0]
  {
  }

  lemma SwitchStuck(s: State<Node>)
    requires s.queue != [] && s.queue[0] == s.current
    ensures Switch(s) == s
  {
  }

  lemma Neighbours(head: Node, s: seq<Node>, i: nat)
    requires Linked(head, s) && i < |s|
    ensures s[i].prev == (if i > 0 then s[i - 1] else head) && s[i].next == (if i + 1 < |s| then s[i + 1] else head)
  {
  }

  lemma RemoveHead(q: seq<Node>)
    requires q != []
    ensures Remove(q, q[0]) == q[1..]
  {
  }
}
