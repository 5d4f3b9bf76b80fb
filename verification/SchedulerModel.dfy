/**
 * The ready queue of kernel/proc/scheduler.c as a sequence: what each call of schedule does to it
 * and to the running process, and in which order a round of calls runs the processes.
 */
module SchedulerModel {
  /** The ready queue from its head, and the running process. */
  datatype State<T> = State(queue: seq<T>, current: T)

  ghost predicate Distinct<T>(q: seq<T>)
  {
    forall i, j :: 0 <= i < j < |q| ==> q[i] != q[j]
  }

  /** q without x. */
  ghost function Remove<T>(q: seq<T>, x: T): (r: seq<T>)
    ensures x !in q ==> r == q
  {
    if q == [] then [] else if q[0] == x then q[1..] else [q[0]] + Remove(q[1..], x)
  }

  /** schedule while the running process is in the queue: nothing if it is at the head; otherwise it
      goes to the back, and the head goes behind it and runs. */
  ghost function Switch<T>(s: State<T>): State<T>
    requires s.queue != []
  {
    var next := s.queue[0];
    if next == s.current then s
    else State(Remove(Remove(s.queue, s.current) + [s.current], next) + [next], next)
  }

  ghost function Switches<T>(s: State<T>, n: nat): (s': State<T>)
    requires s.queue != []
    ensures s'.queue != []
  {
    if n == 0 then s else Switch(Switches(s, n - 1))
  }

  /** The processes that run after each of n calls. */
  ghost function Trace<T>(s: State<T>, n: nat): (t: seq<T>)
    requires s.queue != []
    ensures |t| == n
  {
    if n == 0 then [] else Trace(s, n - 1) + [Switches(s, n).current]
  }

  // ---------- removal ----------

  lemma {:induction false} RemoveAt<T>(q: seq<T>, i: nat)
    requires i < |q| && Distinct(q)
    ensures Remove(q, q[i]) == q[..i] + q[i + 1..]
    decreases |q|
  {
    if i > 0 {
      RemoveAt(q[1..], i - 1);
      assert q[0] != q[i];
      assert [q[0]] + (q[1..][..i - 1] + q[1..][i..]) == q[..i] + q[i + 1..];
    } else {
      assert q[..0] + q[1..] == q[1..];
    }
  }

  /** One switch, with the running process at position i > 0 of the queue. */
  lemma {:induction false} SwitchAt<T>(s: State<T>, i: nat)
    requires 0 < i < |s.queue| && Distinct(s.queue) && s.queue[i] == s.current
    ensures var q := s.queue;
      Switch(s) == State(q[1..i] + q[i + 1..] + [s.current, q[0]], q[0])
  {
    var q := s.queue;
    RemoveAt(q, i);
    var q1 := q[..i] + q[i + 1..] + [s.current];
    assert q[0] != q[i];
    assert Remove(q, s.current) + [s.current] == q1;
    assert q1[0] == q[0];
    assert q1[1..] == q[1..i] + q[i + 1..] + [s.current];
    assert Remove(q1, q[0]) == q1[1..];
    assert q1[1..] + [q[0]] == q[1..i] + q[i + 1..] + [s.current, q[0]];
  }

  lemma SwitchDistinct<T>(s: State<T>, i: nat)
    requires 0 < i < |s.queue| && Distinct(s.queue) && s.queue[i] == s.current
    ensures Distinct(Switch(s).queue) && |Switch(s).queue| == |s.queue|
    ensures multiset(Switch(s).queue) == multiset(s.queue)
  {
    SwitchAt(s, i);
    var q := s.queue;
    var q' := q[1..i] + q[i + 1..] + [s.current, q[0]];
    assert q == [q[0]] + q[1..i] + [q[i]] + q[i + 1..];
    forall a, b | 0 <= a < b < |q'|
      ensures q'[a] != q'[b]
    {
    }
  }

  // ---------- rounds ----------

  /** q turned left by k places. */
  ghost function Rotated<T>(q: seq<T>, k: nat): (r: seq<T>)
    requires k <= |q|
    ensures |r| == |q|
  {
    seq(|q|, i requires 0 <= i < |q| => if i + k < |q| then q[i + k] else q[i + k - |q|])
  }

  lemma RotatedStep<T>(q: seq<T>, k: nat)
    requires 0 < k <= |q|
    ensures Rotated(q, k) == Rotated(q, k - 1)[1..] + [Rotated(q, k - 1)[0]]
  {
  }

  lemma RotatedDistinct<T>(q: seq<T>, k: nat)
    requires Distinct(q) && k <= |q|
    ensures Distinct(Rotated(q, k))
  {
  }

  /** A switch with the running process at the back turns the queue. */
  lemma SwitchBack<T>(s: State<T>)
    requires |s.queue| >= 2 && Distinct(s.queue) && s.queue[|s.queue| - 1] == s.current
    ensures Switch(s) == State(s.queue[1..] + [s.queue[0]], s.queue[0])
  {
    hide Switch;
    hide Distinct;
    var q, n := s.queue, |s.queue|;
    SwitchAt(s, n - 1);
    assert q[1..n - 1] + q[n..] + [s.current, q[0]] == q[1..] + [q[0]];
  }

  /** With the running process at the back, k calls run the first k processes in queue order. */
  lemma {:induction false} RotateRun<T>(s: State<T>, k: nat)
    requires |s.queue| >= 2 && Distinct(s.queue) && s.queue[|s.queue| - 1] == s.current && k <= |s.queue|
    ensures Trace(s, k) == s.queue[..k]
    ensures Switches(s, k) == State(Rotated(s.queue, k), if k == 0 then s.current else s.queue[k - 1])
  {
    hide Switch;
    hide Distinct;
    var q, n := s.queue, |s.queue|;
    if k == 0 {
      assert Rotated(q, 0) == q;
    } else {
      RotateRun(s, k - 1);
      RotatedDistinct(q, k - 1);
      RotatedStep(q, k);
      SwitchBack(Switches(s, k - 1));
      assert q[..k] == q[..k - 1] + [q[k - 1]];
    }
  }

  lemma {:induction false} SwitchesFrom<T>(s: State<T>, n: nat)
    requires s.queue != [] && Switch(s).queue != []
    ensures Switches(s, n + 1) == Switches(Switch(s), n)
    ensures Trace(s, n + 1) == [Switch(s).current] + Trace(Switch(s), n)
  {
    if n > 0 { SwitchesFrom(s, n - 1); }
  }

  /** A queue of n processes with the running one in it but not at its head: n calls of schedule run
      the head, then the others in queue order, then the process that was running: every process
      exactly once. */
  lemma {:induction false} Round<T>(s: State<T>, i: nat)
    requires 0 < i < |s.queue| && Distinct(s.queue) && s.queue[i] == s.current
    ensures var q, t := s.queue, Trace(s, |s.queue|);
      t == [q[0]] + q[1..i] + q[i + 1..] + [s.current] && multiset(t) == multiset(q) && Distinct(t)
    ensures Switches(s, |s.queue|).current == s.current
  {
    hide Switch;
    hide Distinct;
    hide Trace;
    hide Switches;
    var q, n := s.queue, |s.queue|;
    SwitchAt(s, i);
    SwitchDistinct(s, i);
    var s1 := Switch(s);
    assert s1.queue[n - 1] == q[0] == s1.current;
    SwitchesFrom(s, n - 1);
    RotateRun(s1, n - 1);
    var t := Trace(s, n);
    assert s1.queue[..n - 1] == q[1..i] + q[i + 1..] + [s.current];
    assert t == [q[0]] + s1.queue[..n - 1];
    assert t == [q[0]] + q[1..i] + q[i + 1..] + [s.current];
    assert s1.queue[n - 2] == s.current;
    RoundDistinct(s1.queue, t);
  }

  /** The trace is the queue after the first call, turned by one. */
  lemma RoundDistinct<T>(q: seq<T>, t: seq<T>)
    requires |q| >= 1 && Distinct(q) && |t| == |q| && t[0] == q[|q| - 1] && t[1..] == q[..|q| - 1]
    ensures Distinct(t) && multiset(t) == multiset(q)
  {
    assert q == q[..|q| - 1] + [t[0]] && t == [t[0]] + t[1..];
    forall a, b | 0 <= a < b < |t|
      ensures t[a] != t[b]
    {
      assert t[b] == q[b - 1];
      if a > 0 { assert t[a] == q[a - 1]; }
    }
  }

  /** With the running process at the head, as scheduler_start leaves it, no number of calls runs any
      other process. */
  lemma {:induction false} Stuck<T>(s: State<T>, n: nat)
    requires s.queue != [] && s.queue[0] == s.current
    ensures Switches(s, n) == s && forall i :: 0 <= i < n ==> Trace(s, n)[i] == s.current
  {
    if n > 0 { Stuck(s, n - 1); }
  }

  /** So a round runs every process of a queue of two or more exactly when the head is not running. */
  lemma RoundExactly<T>(s: State<T>, i: nat)
    requires i < |s.queue| && |s.queue| >= 2 && Distinct(s.queue) && s.queue[i] == s.current
    ensures multiset(Trace(s, |s.queue|)) == multiset(s.queue) <==> s.queue[0] != s.current
  {
    var t := Trace(s, |s.queue|);
    if i > 0 {
      Round(s, i);
    } else {
      Stuck(s, |s.queue|);
      var x := s.queue[1];
      assert x in multiset(s.queue) && x != s.current;
      assert x !in t;
      assert x !in multiset(t);
    }
  }
}
