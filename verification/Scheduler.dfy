/** threads/scheduler.cc as an object with its linked lists; a thread is its number, its priority an argument. */
module Schedulers {
  import opened Lists
  import opened Kernels

  /** The threads on a list, from first to last. */
  ghost function Threads(s: seq<Elem<Tid>>): (ts: seq<Tid>)
    ensures |ts| == |s| && forall i | 0 <= i < |s| :: ts[i] == s[i].item
  {
    seq(|s|, i requires 0 <= i < |s| => s[i].item)
  }

  /** What the loop of ChangeQueuePriority makes of the queues from the moment at which it has taken x. */
  function LoopFrom(ready: seq<seq<Tid>>, x: Tid, h: Tid, t: Tid, i: nat, p: nat): (r: seq<seq<Tid>>)
    requires i < |ready| && p < |ready| && h in [x] + ready[i] && h != t
  {
    var r := Rotate([x] + ready[i], ready[p], h, t);
    ready[i := r.queue][p := r.into]
  }

  /** One round of the loop, on the queues: x goes to the front of queue p or to the back of queue i, and x' is taken. */
  ghost predicate Round(ready: seq<seq<Tid>>, x: Tid, t: Tid, i: nat, p: nat, ready': seq<seq<Tid>>, x': Tid)
    requires i < |ready| && p < |ready|
  {
    var queue := if x == t then ready[i] else ready[i] + [x];
    var into := if x == t then [t] + ready[p] else ready[p];
    queue != [] && x' == queue[0] && ready' == ready[i := queue[1..]][p := into]
  }

  lemma LoopRound(ready: seq<seq<Tid>>, x: Tid, h: Tid, t: Tid, i: nat, p: nat, ready': seq<seq<Tid>>, x': Tid)
    requires i < |ready| && p < |ready| && i != p && h in [x] + ready[i] && h != t && x != h
    requires Round(ready, x, t, i, p, ready', x')
    ensures h in [x'] + ready'[i] && First([x'] + ready'[i], h) < First([x] + ready[i], h)
    ensures LoopFrom(ready', x', h, t, i, p) == LoopFrom(ready, x, h, t, i, p)
  {
    hide Rotate, First;
    var queue := if x == t then ready[i] else ready[i] + [x];
    var into := if x == t then [t] + ready[p] else ready[p];
    Updated(ready, i, p, queue[1..], into);
    RotateStep([x] + ready[i], ready[p], h, t);
    assert ([x] + ready[i])[1..] == ready[i];
    assert [x'] + ready'[i] == queue;
    var r := Rotate(queue, into, h, t);
    assert r == Rotate([x] + ready[i], ready[p], h, t);
    Overwritten(ready, i, p, queue[1..], into, r.queue, r.into);
  }

  lemma Updated(ready: seq<seq<Tid>>, i: nat, p: nat, x: seq<Tid>, y: seq<Tid>)
    requires i < |ready| && p < |ready| && i != p
    ensures ready[i := x][p := y][i] == x && ready[i := x][p := y][p] == y
  {
  }

  lemma Overwritten(ready: seq<seq<Tid>>, i: nat, p: nat, x: seq<Tid>, y: seq<Tid>, x': seq<Tid>, y': seq<Tid>)
    requires i < |ready| && p < |ready| && i != p
    ensures ready[i := x][p := y][i := x'][p := y'] == ready[i := x'][p := y']
  {
  }

  lemma LoopEnd(ready: seq<seq<Tid>>, h: Tid, t: Tid, i: nat, p: nat)
    requires i < |ready| && p < |ready| && i != p && h != t
    ensures LoopFrom(ready, h, h, t, i, p) == ready
  {
    assert ([h] + ready[i])[1..] == ready[i];
  }

  lemma LoopStart(ready: seq<seq<Tid>>, ready': seq<seq<Tid>>, x: Tid, h: Tid, t: Tid, i: nat, p: nat)
    requires i < |ready| && p < |ready| && i != p && h != t && h in ready[i]
    requires x == ready[i][0] && ready' == ready[i := ready[i][1..]]
    ensures h in [x] + ready'[i]
    ensures var r := Rotate(ready[i], ready[p], h, t); LoopFrom(ready', x, h, t, i, p) == ready[i := r.queue][p := r.into]
  {
    assert [x] + ready'[i] == ready[i];
  }

  class Scheduler {
    const readyListP: seq<List<Tid>>    // the pointers of the array never change
    ghost var nodes: set<ListElement<Tid>>

    ghost predicate Three()
    {
      |readyListP| == MAX_PRIORITY
    }

    ghost predicate ListOk(p: nat)
      requires p < |readyListP|
      reads readyListP[p], readyListP[p].spine
    {
      readyListP[p].Valid()
    }

    /** The lists are three, and share no node. */
    ghost predicate Valid()
      reads this, readyListP, nodes
    {
      && Three()
      && (forall p, n | 0 <= p < |readyListP| && n in readyListP[p].spine :: n in nodes)
      && (forall p | 0 <= p < |readyListP| :: ListOk(p))
      && (forall p, q | 0 <= p < q < |readyListP| :: readyListP[p] != readyListP[q])
      && (forall p, q, n | 0 <= p < |readyListP| && 0 <= q < |readyListP| && p != q && n in readyListP[p].spine ::
            n !in readyListP[q].spine)
    }

    ghost function Queue(p: nat): (q: seq<Tid>)
      requires p < |readyListP|
      reads readyListP[p], readyListP[p].spine
    {
      Threads(readyListP[p].Contents())
    }

    /** The ready queues of the kernel. */
    ghost function Queues(): (qs: seq<seq<Tid>>)
      requires Valid()
      reads this, readyListP, nodes
      ensures |qs| == MAX_PRIORITY && forall p | 0 <= p < MAX_PRIORITY :: qs[p] == Queue(p)
    {
      [Queue(0), Queue(1), Queue(2)]
    }

    constructor ()
      ensures Valid() && fresh(readyListP) && fresh(nodes)
      ensures Queues() == [[], [], []]
    {
      var lists: seq<List<Tid>> := [];
      for i := 0 to MAX_PRIORITY
        invariant |lists| == i && fresh(lists)
        invariant forall p | 0 <= p < i :: lists[p].Valid() && lists[p].spine == []
        invariant forall p, q | 0 <= p < q < i :: lists[p] != lists[q]
      {
        var l := new List();
        lists := lists + [l];
      }
      readyListP := lists;
      nodes := {};
    }

    /** One list changes, the others stay. */
    method AppendTo(p: nat, thread: Tid)
      requires Valid() && p < MAX_PRIORITY
      modifies this, readyListP, nodes
      ensures Valid() && fresh(nodes - old(nodes))
      ensures Queues() == old(Queues())[p := old(Queues())[p] + [thread]]
    {
      hide List.Valid, List.Contents;
      assert ListOk(p);
      readyListP[p].Append(thread);
      nodes := nodes + set n | n in readyListP[p].spine;
      OthersKept(p);
      assert Queue(p) == old(Queue(p)) + [thread];
    }

    method PrependTo(p: nat, thread: Tid)
      requires Valid() && p < MAX_PRIORITY
      modifies this, readyListP, nodes
      ensures Valid() && fresh(nodes - old(nodes))
      ensures Queues() == old(Queues())[p := [thread] + old(Queues())[p]]
    {
      hide List.Valid, List.Contents;
      assert ListOk(p);
      readyListP[p].Prepend(thread);
      nodes := nodes + set n | n in readyListP[p].spine;
      OthersKept(p);
      assert Queue(p) == [thread] + old(Queue(p));
    }

    /** `Remove()`; none is the NULL of the source. */
    method RemoveFrom(p: nat) returns (none: bool, thread: Tid)
      requires Valid() && p < MAX_PRIORITY
      modifies this, readyListP, nodes
      ensures Valid() && fresh(nodes - old(nodes))
      ensures none <==> old(Queues())[p] == []
      ensures none ==> Queues() == old(Queues())
      ensures !none ==> thread == old(Queues())[p][0] && Queues() == old(Queues())[p := old(Queues())[p][1..]]
    {
      hide List.Valid, List.Contents;
      assert ListOk(p);
      none := readyListP[p].IsEmpty();
      thread := readyListP[p].Remove(0);
      OthersKept(p);
      assert Queue(p) == if none then old(Queue(p)) else old(Queue(p))[1..];
      assert !none ==> thread == old(Queue(p))[0];
    }

    /** Exactly the kernel's MakeReady, on the list of the thread's priority. */
    method ReadyToRun(thread: Tid, priority: nat)
      requires Valid() && priority < MAX_PRIORITY
      modifies this, readyListP, nodes
      ensures Valid() && fresh(nodes - old(nodes))
      ensures forall k: Kernel | k.ready == old(Queues()) && thread in k.priority && k.priority[thread] == priority ::
        Queues() == MakeReady(k, thread).ready
    {
      hide Valid, Queues;
      AppendTo(priority, thread);
    }

    /** The lists are searched downwards from the highest priority; none is the NULL of the source. */
    method FindNextToRun() returns (none: bool, thread: Tid)
      requires Valid()
      modifies this, readyListP, nodes
      ensures Valid() && fresh(nodes - old(nodes))
      ensures forall k: Kernel | k.ready == old(Queues()) ::
        Queues() == Dispatch(k).ready && Dispatch(k).cpu == if none then Idling else Runs(thread)
    {
      hide Valid, Queues;
      var p := FindList();
      none, thread := RemoveFrom(p);
    }

    /**
     * The change of a thread's priority from i to another one.  An empty list gives NULL, whose name is then asked
     * for: the call fails.  Otherwise the lists become those of the kernel's donation.
     */
    method ChangeQueuePriority(th: Tid, i: nat, priority: nat) returns (ok: bool)
      requires Valid() && i < MAX_PRIORITY && priority < MAX_PRIORITY && i != priority
      modifies this, readyListP, nodes
      ensures Valid() && fresh(nodes - old(nodes))
      ensures ok <==> old(Queues())[i] != []
      ensures ok ==> Queues() == Changed(old(Queues()), th, i, priority)
      ensures ok ==> (Ready(Queues()) == Ready(old(Queues())) <==> old(Queues())[i][0] == th)
      ensures ok && old(Queues())[i][0] != th ==> Ready(Queues()) + multiset{old(Queues())[i][0]} == Ready(old(Queues()))
    {
      hide Valid, Queues, Ready, Rotate;
      ghost var ready := Queues();
      var none, threadh := RemoveFrom(i);
      if none {
        return false;
      }
      ChangeIff(ready, th, i, priority);
      ok := true;
      if threadh == th {
        PrependTo(priority, th);
      } else {
        AppendTo(i, threadh);
        MoveBehind(th, threadh, i, priority);
      }
    }

    /** The loop of ChangeQueuePriority: th is put to the front of its new list, and threadh is not put back. */
    method MoveBehind(th: Tid, threadh: Tid, i: nat, priority: nat)
      requires Valid() && i < MAX_PRIORITY && priority < MAX_PRIORITY && i != priority
      requires threadh in Queues()[i] && threadh != th
      modifies this, readyListP, nodes
      ensures Valid() && fresh(nodes - old(nodes))
      ensures var r := Rotate(old(Queues())[i], old(Queues())[priority], threadh, th);
              Queues() == old(Queues())[i := r.queue][priority := r.into]
    {
      hide Valid, Queues, Rotate, First, LoopFrom, Round;
      ghost var ready := Queues();
      var none, thread1 := RemoveFrom(i);
      LoopStart(ready, Queues(), thread1, threadh, th, i, priority);
      while thread1 != threadh
        invariant Valid() && fresh(nodes - old(nodes)) && threadh in [thread1] + Queues()[i]
        invariant LoopFrom(Queues(), thread1, threadh, th, i, priority)
               == ready[i := Rotate(ready[i], ready[priority], threadh, th).queue][priority := Rotate(ready[i], ready[priority], threadh, th).into]
        decreases First([thread1] + Queues()[i], threadh)
      {
        ghost var before, x := Queues(), thread1;
        thread1 := MoveOne(thread1, th, i, priority);
        LoopRound(before, x, threadh, th, i, priority, Queues(), thread1);
      }
      LoopEnd(Queues(), threadh, th, i, priority);
    }

    /** One round: the thread goes to the front of the new list or to the back of its own, and the next one is taken. */
    method MoveOne(thread1: Tid, th: Tid, i: nat, priority: nat) returns (thread: Tid)
      requires Valid() && i < MAX_PRIORITY && priority < MAX_PRIORITY && i != priority
      requires thread1 == th ==> Queues()[i] != []
      modifies this, readyListP, nodes
      ensures Valid() && fresh(nodes - old(nodes))
      ensures Round(old(Queues()), thread1, th, i, priority, Queues(), thread)
    {
      hide Valid, Queues;
      if thread1 == th {
        PrependTo(priority, th);
      } else {
        AppendTo(i, thread1);
      }
      var none;
      none, thread := RemoveFrom(i);
    }

    /** The search loop of FindNextToRun. */
    method FindList() returns (p: nat)
      requires Valid()
      ensures p < MAX_PRIORITY && p == TopQueue(Queues(), MAX_PRIORITY - 1)
    {
      hide List.Valid, List.Contents;
      p := MAX_PRIORITY - 1;
      assert ListOk(p);
      while p > 0 && readyListP[p].IsEmpty()
        invariant 0 <= p < MAX_PRIORITY && ListOk(p)
        invariant TopQueue(Queues(), p) == TopQueue(Queues(), MAX_PRIORITY - 1)
      {
        assert Queues()[p] == Queue(p) == [];
        p := p - 1;
        assert ListOk(p);
      }
      assert p > 0 ==> Queues()[p] == Queue(p) != [];
    }

    /** After one list has changed the others are as they were. */
    twostate lemma OthersKept(changed: nat)
      requires old(Valid()) && changed < MAX_PRIORITY && readyListP[changed].Valid()
      requires forall p | 0 <= p < MAX_PRIORITY && p != changed :: unchanged(readyListP[p]) && unchanged(readyListP[p].spine)
      requires fresh(set n | n in readyListP[changed].spine && n !in old(readyListP[changed].spine))
      requires nodes == old(nodes) + set n | n in readyListP[changed].spine
      ensures Valid() && fresh(nodes - old(nodes))
      ensures forall p | 0 <= p < MAX_PRIORITY && p != changed :: Queue(p) == old(Queue(p))
    {
      hide List.Valid, List.Contents;
      forall p | 0 <= p < MAX_PRIORITY
        ensures ListOk(p)
      {
        assert old(ListOk(p)) && (p != changed ==> unchanged(readyListP[p]) && unchanged(readyListP[p].spine));
      }
      forall p, q, n | 0 <= p < MAX_PRIORITY && 0 <= q < MAX_PRIORITY && p != q && n in readyListP[p].spine
        ensures n !in readyListP[q].spine
      {
        assert p != changed ==> n in old(readyListP[p].spine);
        assert q != changed ==> readyListP[q].spine == old(readyListP[q].spine);
      }
    }
  }
}
