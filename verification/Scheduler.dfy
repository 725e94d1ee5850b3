// process_scheduler over a linked list of processes, each with its threads.
module Scheduler {
  import opened Wrappers
  import opened Scheduling

  function Following(j: nat, n: nat): (k: nat)
    requires j < n
    ensures k == Around(j, 1, n)
  {
    FollowingWraps(j, n);
    (j + 1) % n
  }

  lemma FollowingWraps(j: nat, n: nat)
    requires j < n
    ensures (j + 1) % n == if j + 1 < n then j + 1 else 0
  {
    if j + 1 < n {
      RemainderOfSmaller(j + 1, n);
    } else {
      assert n == 1 * n + 0;
    }
  }

  lemma RemainderOfSmaller(x: nat, n: nat)
    requires x < n
    ensures x % n == x
  {
  }

  class Thread {
    var state: ThreadState
    var parent: Process?

    constructor ()
      ensures parent == null && state == New
    {
      parent, state := null, New;
    }
  }

  // The array of threads and the link are set up once; the scheduler does not write them.
  class Process {
    const threads: seq<Thread>
    const next: Process?

    constructor (threads: seq<Thread>, next: Process?)
      ensures this.threads == threads && this.next == next
    {
      this.threads, this.next := threads, next;
    }

    ghost predicate Owns()
      reads threads
    {
      && (forall t :: 0 <= t < |threads| ==> threads[t].parent == this)
      && (forall t, u :: 0 <= t < u < |threads| ==> threads[t] != threads[u])
    }

    ghost function States(n: nat): (s: seq<ThreadState>)
      requires n <= |threads|
      reads threads
      ensures |s| == n && forall t :: 0 <= t < n ==> s[t] == threads[t].state
    {
      if n == 0 then [] else States(n - 1) + [threads[n - 1].state]
    }

    ghost function View(): (v: seq<ThreadState>)
      reads threads
      ensures |v| == |threads|
    {
      States(|threads|)
    }

    twostate lemma OneState(t: nat)
      requires t < |threads|
      requires forall u :: 0 <= u < |threads| && u != t ==> threads[u].state == old(threads[u].state)
      ensures View() == old(View())[t := threads[t].state]
    {
    }

    twostate lemma NoState()
      requires forall u :: 0 <= u < |threads| ==> threads[u].state == old(threads[u].state)
      ensures View() == old(View())
    {
    }

    // The number of the first ready thread, or the number of threads.
    method FindReady() returns (t: nat)
      ensures t <= |threads|
      ensures FirstReady(View(), 0) == if t < |threads| then Some(t) else None
    {
      t := 0;
      while t < |threads|
        invariant t <= |threads| && FirstReady(View(), t) == FirstReady(View(), 0)
      {
        if threads[t].state == Ready {
          return;
        }
        t := t + 1;
      }
    }

    // The number of the thread: the search by address.
    method Find(current: Thread, ghost c: nat) returns (i: nat)
      requires Owns() && c < |threads| && threads[c] == current
      ensures i == c
    {
      i := 0;
      while threads[i] != current
        invariant i <= c
        decreases c - i
      {
        i := i + 1;
      }
    }

    // The number of the next ready thread after thread i, in cyclic order, or i if there is none.
    method FindNextReady(i: nat) returns (j: nat)
      requires i < |threads|
      ensures j < |threads|
      ensures NextReady(View(), i, 1) == if j != i then Some(j) else None
    {
      ghost var d := 1;
      j := Following(i, |threads|);
      while j != i
        invariant 1 <= d <= |threads| && j == Around(i, d, |threads|)
        invariant NextReady(View(), i, d) == NextReady(View(), i, 1)
        decreases |threads| - d
      {
        if threads[j].state == Ready {
          return;
        }
        j := Following(j, |threads|);
        d := d + 1;
      }
    }
  }

  class Scheduler {
    const table: Process?
    var current: Thread?
    ghost var cur: Option<Slot>
    ghost const list: seq<Process>

    ghost const all: set<Thread>

    constructor (ghost list: seq<Process>, table: Process?, ghost all: set<Thread>)
      ensures this.list == list && this.table == table && this.all == all && current == null && cur == None
    {
      this.list, this.table, this.all, current, cur := list, table, all, null, None;
    }

    ghost predicate Covers() {
      forall i, t :: 0 <= i < |list| && 0 <= t < |list[i].threads| ==> list[i].threads[t] in all
    }

    // The list is acyclic and starts at the table.
    ghost predicate Linked() {
      && table == (if list == [] then null else list[0])
      && (forall i :: 0 <= i < |list| ==> list[i].next == if i + 1 < |list| then list[i + 1] else null)
      && (forall i, j :: 0 <= i < j < |list| ==> list[i] != list[j])
    }

    // Every thread has one place, and current is one of them.
    ghost predicate Valid()
      reads this, all
    {
      && Linked() && Covers()
      && (forall i :: 0 <= i < |list| ==> list[i].Owns())
      && (current == null <==> cur == None)
      && (cur.Some? ==>
            && cur.value.p < |list| && cur.value.t < |list[cur.value.p].threads|
            && list[cur.value.p].threads[cur.value.t] == current)
    }

    ghost function Procs(n: nat): (s: seq<seq<ThreadState>>)
      requires n <= |list| && Covers()
      reads all
      ensures |s| == n && forall i :: 0 <= i < n ==> s[i] == list[i].View()
    {
      if n == 0 then [] else Procs(n - 1) + [list[n - 1].View()]
    }

    ghost function View(): Machine
      requires Covers()
      reads this, all
    {
      Machine(Procs(|list|), cur)
    }

    lemma Link(k: nat)
      requires Valid() && k < |list|
      ensures list[k].next == (if k + 1 < |list| then list[k + 1] else null) && table == list[0]
    {
    }

    lemma Distinct(i: nat, j: nat)
      requires Valid() && i < |list| && j < |list|
      ensures list[i] == list[j] ==> i == j
    {
    }

    lemma LinkEnds()
      requires Valid()
      ensures table == null <==> list == []
    {
    }

    // A thread has one place.
    lemma OnePlace(s: Slot, i: nat, t: nat)
      requires Valid() && s.p < |list| && s.t < |list[s.p].threads|
      requires i < |list| && t < |list[i].threads|
      ensures list[i].threads[t] == list[s.p].threads[s.t] <==> i == s.p && t == s.t
    {
      assert list[i].Owns() && list[s.p].Owns();
      assert list[i].threads[t].parent == list[i] && list[s.p].threads[s.t].parent == list[s.p];
    }

    // One thread changes its state.
    method SetState(th: Thread, ghost s: Slot, x: ThreadState)
      requires Valid() && s.p < |list| && s.t < |list[s.p].threads| && list[s.p].threads[s.t] == th
      modifies th`state
      ensures Valid() && old(View()).Has(s) && View() == old(View()).Put(s, x)
    {
      hide Process.View, Process.States;
      forall i, t | 0 <= i < |list| && 0 <= t < |list[i].threads|
        ensures list[i].threads[t] == th <==> i == s.p && t == s.t
      {
        OnePlace(s, i, t);
      }
      ghost var v := View();
      th.state := x;
      ghost var v' := v.Put(s, x);
      forall i | 0 <= i < |list|
        ensures View().procs[i] == v'.procs[i]
      {
        assert View().procs[i] == list[i].View();
        assert v.procs[i] == old(list[i].View());
        if i == s.p {
          list[i].OneState(s.t);
        } else {
          list[i].NoState();
        }
      }
      assert View().procs == v'.procs;
    }

    // The thread becomes the current one and runs.
    method Start(th: Thread, ghost s: Slot)
      requires Valid() && s.p < |list| && s.t < |list[s.p].threads| && list[s.p].threads[s.t] == th
      modifies this`current, this`cur, th`state
      ensures Valid() && old(View()).Has(s) && View() == old(View()).Put(s, Running).(cur := Some(s))
    {
      SetState(th, s, Running);
      current, cur := th, Some(s);
    }

    // The first ready thread over the whole list.
    method FindFirst() returns (th: Thread?, ghost s: Slot)
      requires Valid()
      ensures
        match FirstProcess(View().procs, 0)
        case None => th == null
        case Some(f) => s == f && f.p < |list| && f.t < |list[f.p].threads| && th == list[f.p].threads[f.t]
    {
      hide Process.View, Process.Owns, Scheduler.Procs, Scheduler.Linked, Scheduler.Covers;
      ghost var procs := View().procs;
      LinkEnds();
      if table != null {
        Link(0);
      }
      var p := table;
      ghost var k := 0;
      while p != null
        invariant Valid() && k <= |list| && p == if k < |list| then list[k] else null
        invariant View().procs == procs && FirstProcess(procs, k) == FirstProcess(procs, 0)
        decreases |list| - k
      {
        var t := p.FindReady();
        assert procs[k] == p.View();
        Link(k);
        if t < |p.threads| {
          return p.threads[t], Slot(k, t);
        }
        p, k := p.next, k + 1;
      }
      return null, Slot(0, 0);
    }

    // The process after p on the list, from the end back to the table.
    method NextOf(p: Process, ghost k: nat) returns (q: Process)
      requires Valid() && k < |list| && p == list[k]
      ensures q == list[Around(k, 1, |list|)]
    {
      Link(k);
      if p.next != null {
        q := p.next;
      } else {
        q := table;
      }
    }

    // The first ready thread of the processes after the current one.
    method FindOther(c: Process, ghost k: nat) returns (th: Thread?, ghost s: Slot)
      requires Valid() && k < |list| && c == list[k]
      ensures
        match NextProcess(View().procs, k, 1)
        case None => th == null
        case Some(f) => s == f && f.p < |list| && f.t < |list[f.p].threads| && th == list[f.p].threads[f.t]
    {
      hide Process.View, Process.Owns, Scheduler.Procs, Scheduler.Linked, Scheduler.Covers;
      ghost var procs := View().procs;
      var p := NextOf(c, k);
      ghost var d := 1;
      while p != c
        invariant Valid() && 1 <= d <= |list| && p == list[Around(k, d, |list|)]
        invariant View().procs == procs && NextProcess(procs, k, d) == NextProcess(procs, k, 1)
        decreases |list| - d
      {
        ghost var q := Around(k, d, |list|);
        var t := p.FindReady();
        assert procs[q] == p.View();
        if t < |p.threads| {
          return p.threads[t], Slot(q, t);
        }
        p := NextOf(p, q);
        d := d + 1;
      }
      Distinct(k, Around(k, d, |list|));
      return null, Slot(0, 0);
    }

    // process_scheduler
    method ProcessScheduler()
      requires Valid()
      modifies this`current, this`cur, all`state
      ensures Valid() && old(View()).Valid() && View() == Scheduling.Schedule(old(View()))
    {
      hide Process.View;
      ghost var v := View();
      var next: Thread?;
      ghost var s: Slot;
      ChoiceExists(v);
      if current == null {
        next, s := FindFirst();
        if next != null {
          Start(next, s);
        }
      } else {
        var process := current.parent;
        ghost var c := cur.value;
        assert list[c.p].Owns();
        var i := process.Find(current, c.t);
        var j := process.FindNextReady(i);
        assert v.procs[c.p] == process.View();
        if j != i {
          next, s := process.threads[j], Slot(c.p, j);
        } else {
          next, s := FindOther(process, c.p);
        }
        if next != null {
          SetState(current, c, Ready);
          Start(next, s);
        }
      }
    }
  }
}
