/** The message queue of kernel/proc/ipc.c: a ring of 64 slots from which messages are taken anywhere. */
module Ipc {
  import opened Wrappers

  const SIZE: nat := 64
  const U64: nat := 0x1_0000_0000_0000_0000

  /** ipc_message_t */
  datatype Message = Message(msgId: nat, srcPid: nat, dstPid: nat, kind: nat, payload: seq<bv8>, timestamp: nat)

  predicate For(m: Message, pid: nat)
  {
    m.dstPid == pid || m.dstPid == 0
  }

  /** x % SIZE below two rounds. */
  function Wrap(x: nat): nat
    requires x < 2 * SIZE
  {
    if x < SIZE then x else x - SIZE
  }

  function Count(head: nat, tail: nat): (n: nat)
    requires head < SIZE && tail < SIZE
    ensures n < SIZE && Wrap(tail + n) == head
  {
    if head >= tail then head - tail else head + SIZE - tail
  }

  /** n slots from tail on, around the end. */
  ghost function Ring(slots: seq<Message>, tail: nat, n: nat): (s: seq<Message>)
    requires |slots| == SIZE && tail < SIZE && n <= SIZE
    ensures |s| == n
  {
    seq(n, i requires 0 <= i < n => slots[Wrap(tail + i)])
  }

  lemma RingUpdate(slots: seq<Message>, tail: nat, n: nat, j: nat, m: Message)
    requires |slots| == SIZE && tail < SIZE && j < n <= SIZE
    ensures Ring(slots[Wrap(tail + j) := m], tail, n) == Ring(slots, tail, n)[j := m]
  {
    var a, b := Ring(slots[Wrap(tail + j) := m], tail, n), Ring(slots, tail, n)[j := m];
    forall k | 0 <= k < n
      ensures a[k] == b[k]
    {
      if k != j { assert Wrap(tail + k) != Wrap(tail + j); }
    }
  }

  lemma RingAppend(slots: seq<Message>, tail: nat, n: nat, m: Message)
    requires |slots| == SIZE && tail < SIZE && n < SIZE
    ensures Ring(slots[Wrap(tail + n) := m], tail, n + 1) == Ring(slots, tail, n) + [m]
  {
    var a, b := Ring(slots[Wrap(tail + n) := m], tail, n + 1), Ring(slots, tail, n) + [m];
    forall k | 0 <= k < n + 1
      ensures a[k] == b[k]
    {
      if k != n { assert Wrap(tail + k) != Wrap(tail + n); }
    }
  }

  class Queue {
    const slots: array<Message>
    var head: nat
    var tail: nat
    var nextId: nat

    ghost predicate Valid()
      reads this, slots
    {
      && slots.Length == SIZE && head < SIZE && tail < SIZE && 1 <= nextId < U64
      && Increasing(Messages(), nextId)
    }

    /** The messages in the ring, the oldest first. */
    ghost function Messages(): (s: seq<Message>)
      requires slots.Length == SIZE && head < SIZE && tail < SIZE
      reads this, slots
      ensures |s| < SIZE
    {
      Ring(slots[..], tail, Count(head, tail))
    }

    /** ipc_init */
    constructor ()
      ensures Valid() && Messages() == [] && nextId == 1 && fresh(slots)
    {
      slots := new Message[SIZE](_ => Message(0, 0, 0, 0, [], 0));
      head, tail, nextId := 0, 0, 1;
    }

    /** ipc_send: the message is appended under a new id unless 63 are waiting. */
    method Send(dstPid: nat, msg: Message, now: nat) returns (ok: bool)
      requires Valid() && nextId + 1 < U64
      modifies this`head, this`nextId, slots
      ensures Valid()
      ensures ok <==> |old(Messages())| < SIZE - 1
      ensures !ok ==> Messages() == old(Messages()) && nextId == old(nextId)
      ensures ok ==> Messages() == old(Messages()) + [msg.(msgId := old(nextId), dstPid := dstPid, timestamp := now)]
      ensures ok ==> nextId == old(nextId) + 1
    {
      hide Ring;
      ghost var before, n := slots[..], Count(head, tail);
      var next := Wrap(head + 1);
      if next == tail {
        return false;
      }
      var m := msg.(msgId := nextId, dstPid := dstPid, timestamp := now);
      slots[head] := m;
      nextId := nextId + 1;
      assert slots[..] == before[head := m];
      RingAppend(before, tail, n, m);
      head := next;
      assert Count(head, tail) == n + 1;
      ok := true;
    }

    /** ipc_recv: the earliest message for the process is taken out, the others stay in order. */
    method Recv(pid: nat) returns (msg: Option<Message>, ghost i: nat)
      requires Valid()
      modifies this`head, slots
      ensures Valid()
      ensures msg.None? <==> forall k :: 0 <= k < |old(Messages())| ==> !For(old(Messages())[k], pid)
      ensures msg.None? ==> Messages() == old(Messages())
      ensures msg.Some? ==>
        var s := old(Messages());
        && i < |s| && msg.value == s[i] && For(s[i], pid) && (forall k :: 0 <= k < i ==> !For(s[k], pid))
        && Messages() == Without(s, i)
    {
      ghost var s := Messages();
      var idx := tail;
      i := 0;
      while idx != head
        invariant i <= |s| && idx == Wrap(tail + i) && Messages() == s
        invariant forall k :: 0 <= k < i ==> !For(s[k], pid)
        decreases |s| - i
      {
        assert slots[idx] == s[i];
        if For(slots[idx], pid) {
          msg := Some(slots[idx]);
          Remove(idx, i);
          return;
        }
        idx := Wrap(idx + 1);
        i := i + 1;
      }
      msg := None;
    }

    /** The shifting loop of ipc_recv. */
    method Remove(start: nat, ghost i: nat)
      requires Valid() && i < |Messages()| && start == Wrap(tail + i)
      modifies this`head, slots
      ensures Valid() && Messages() == Without(old(Messages()), i)
    {
      hide Ring;
      hide Shifted;
      hide Without;
      hide Increasing;
      ghost var s, n := Messages(), Count(head, tail);
      ShiftedNone(s, i);
      var idx, next := start, Wrap(start + 1);
      ghost var j := i;
      while next != head
        invariant i <= j < n && idx == Wrap(tail + j) && next == Wrap(tail + j + 1)
        invariant Ring(slots[..], tail, n) == Shifted(s, i, j)
        decreases n - j
        modifies slots
      {
        ShiftOne(slots[..], tail, s, i, j);
        ghost var before := slots[..];
        slots[idx] := slots[next];
        assert slots[..] == before[idx := before[next]];
        idx := next;
        next := Wrap(next + 1);
        j := j + 1;
      }
      assert j == n - 1;
      RemoveDone(slots[..], tail, s, i);
      head := Wrap(head + (SIZE - 1));
      assert Count(head, tail) == n - 1;
      WithoutIncreasing(s, i, nextId);
    }
  }

  lemma RingAt(slots: seq<Message>, tail: nat, n: nat, j: nat)
    requires |slots| == SIZE && tail < SIZE && j < n <= SIZE
    ensures Ring(slots, tail, n)[j] == slots[Wrap(tail + j)]
  {
  }

  lemma ShiftedNone(s: seq<Message>, i: nat)
    requires i < |s|
    ensures Shifted(s, i, i) == s
  {
  }

  /** One round of the shifting loop. */
  lemma ShiftOne(slots: seq<Message>, tail: nat, s: seq<Message>, i: nat, j: nat)
    requires |slots| == SIZE && tail < SIZE && i <= j && j + 1 < |s| < SIZE && Ring(slots, tail, |s|) == Shifted(s, i, j)
    ensures Ring(slots[Wrap(tail + j) := slots[Wrap(tail + j + 1)]], tail, |s|) == Shifted(s, i, j + 1)
  {
    hide Ring;
    RingAt(slots, tail, |s|, j + 1);
    RingUpdate(slots, tail, |s|, j, slots[Wrap(tail + j + 1)]);
    assert Shifted(s, i, j)[j := s[j + 1]] == Shifted(s, i, j + 1);
  }

  lemma RemoveDone(slots: seq<Message>, tail: nat, s: seq<Message>, i: nat)
    requires |slots| == SIZE && tail < SIZE && i < |s| <= SIZE && Ring(slots, tail, |s|) == Shifted(s, i, |s| - 1)
    ensures Ring(slots, tail, |s| - 1) == Without(s, i)
  {
    forall k | 0 <= k < |s| - 1
      ensures Ring(slots, tail, |s| - 1)[k] == Without(s, i)[k]
    {
      assert Ring(slots, tail, |s|)[k] == Shifted(s, i, |s| - 1)[k];
    }
  }

  /** s after elements i + 1 to j moved down by one place. */
  ghost function Shifted(s: seq<Message>, i: nat, j: nat): (r: seq<Message>)
    requires j < |s|
    ensures |r| == |s|
  {
    seq(|s|, k requires 0 <= k < |s| => if i <= k < j then s[k + 1] else s[k])
  }

  /** The list without element i. */
  ghost function Without(s: seq<Message>, i: nat): (r: seq<Message>)
    requires i < |s|
    ensures |r| == |s| - 1
  {
    seq(|s| - 1, k requires 0 <= k < |s| - 1 => if k < i then s[k] else s[k + 1])
  }

  /** Message ids increase strictly from the oldest to the newest and are all below n. */
  ghost predicate Increasing(s: seq<Message>, n: nat)
  {
    && (forall i, j :: 0 <= i < j < |s| ==> s[i].msgId < s[j].msgId)
    && (forall i :: 0 <= i < |s| ==> s[i].msgId < n)
  }

  lemma WithoutIncreasing(s: seq<Message>, i: nat, n: nat)
    requires Increasing(s, n) && i < |s|
    ensures Increasing(Without(s, i), n)
  {
  }
}
