// The choice of the round-robin scheduler, and every run of it.
module Scheduling {
  import opened Wrappers

  datatype ThreadState = New | Running | Ready | Waiting | Suspended | Blocked | Killed

  // A thread: the t-th thread of the p-th process on the list.
  datatype Slot = Slot(p: nat, t: nat)

  datatype Machine = Machine(procs: seq<seq<ThreadState>>, cur: Option<Slot>) {
    predicate Has(s: Slot) {
      s.p < |procs| && s.t < |procs[s.p]|
    }

    predicate Valid() {
      cur.Some? ==> Has(cur.value)
    }

    function At(s: Slot): ThreadState
      requires Has(s)
    {
      procs[s.p][s.t]
    }

    function Put(s: Slot, x: ThreadState): Machine
      requires Has(s)
    {
      this.(procs := procs[s.p := procs[s.p][s.t := x]])
    }
  }

  // The place d steps after i in a cycle of n.
  function Around(i: nat, d: nat, n: nat): (j: nat)
    requires i < n && d <= n
    ensures j < n
  {
    if i + d < n then i + d else i + d - n
  }

  // The first ready thread from the d-th after thread i on, in cyclic order, before i itself.
  function NextReady(ts: seq<ThreadState>, i: nat, d: nat): Option<nat>
    requires i < |ts| && d <= |ts|
    decreases |ts| - d
  {
    if d == |ts| then None
    else if ts[Around(i, d, |ts|)] == Ready then Some(Around(i, d, |ts|))
    else NextReady(ts, i, d + 1)
  }

  function FirstReady(ts: seq<ThreadState>, t: nat): Option<nat>
    requires t <= |ts|
    decreases |ts| - t
  {
    if t == |ts| then None else if ts[t] == Ready then Some(t) else FirstReady(ts, t + 1)
  }

  // The first ready thread of the first process that has one, from the d-th process after p on, before p itself.
  function NextProcess(procs: seq<seq<ThreadState>>, p: nat, d: nat): Option<Slot>
    requires p < |procs| && d <= |procs|
    decreases |procs| - d
  {
    if d == |procs| then None
    else
      var q := Around(p, d, |procs|);
      match FirstReady(procs[q], 0)
      case Some(t) => Some(Slot(q, t))
      case None => NextProcess(procs, p, d + 1)
  }

  // The same over the list from its head on, for the first scheduling.
  function FirstProcess(procs: seq<seq<ThreadState>>, p: nat): Option<Slot>
    requires p <= |procs|
    decreases |procs| - p
  {
    if p == |procs| then None
    else
      match FirstReady(procs[p], 0)
      case Some(t) => Some(Slot(p, t))
      case None => FirstProcess(procs, p + 1)
  }

  function Choice(m: Machine): Option<Slot>
    requires m.Valid()
  {
    match m.cur
    case None => FirstProcess(m.procs, 0)
    case Some(c) =>
      match NextReady(m.procs[c.p], c.t, 1)
      case Some(t) => Some(Slot(c.p, t))
      case None => NextProcess(m.procs, c.p, 1)
  }

  // process_scheduler.
  function Schedule(m: Machine): Machine
    requires m.Valid()
  {
    ChoiceExists(m);
    match Choice(m)
    case None => m
    case Some(s) =>
      var m' := if m.cur.Some? then m.Put(m.cur.value, Ready) else m;
      m'.Put(s, Running).(cur := Some(s))
  }

  // ----- the searches

  lemma {:induction false} NextReadyExact(ts: seq<ThreadState>, i: nat, d: nat)
    requires i < |ts| && d <= |ts|
    ensures
      match NextReady(ts, i, d)
      case Some(t) =>
        exists e: nat :: d <= e < |ts| && t == Around(i, e, |ts|) && ts[t] == Ready
                    && forall f :: d <= f < e ==> ts[Around(i, f, |ts|)] != Ready
      case None => forall f :: d <= f < |ts| ==> ts[Around(i, f, |ts|)] != Ready
    decreases |ts| - d
  {
    if d < |ts| && ts[Around(i, d, |ts|)] != Ready {
      NextReadyExact(ts, i, d + 1);
    }
  }

  lemma {:induction false} FirstReadyExact(ts: seq<ThreadState>, t: nat)
    requires t <= |ts|
    ensures
      match FirstReady(ts, t)
      case Some(u) => t <= u < |ts| && ts[u] == Ready && forall f :: t <= f < u ==> ts[f] != Ready
      case None => forall f :: t <= f < |ts| ==> ts[f] != Ready
    decreases |ts| - t
  {
    if t < |ts| && ts[t] != Ready {
      FirstReadyExact(ts, t + 1);
    }
  }

  predicate HasReady(ts: seq<ThreadState>) {
    exists t :: 0 <= t < |ts| && ts[t] == Ready
  }

  // s is the first ready thread of its process.
  predicate Leads(procs: seq<seq<ThreadState>>, s: Slot) {
    && s.p < |procs| && s.t < |procs[s.p]| && procs[s.p][s.t] == Ready
    && forall t :: 0 <= t < s.t ==> procs[s.p][t] != Ready
  }

  lemma {:induction false} NextProcessExact(procs: seq<seq<ThreadState>>, p: nat, d: nat)
    requires p < |procs| && d <= |procs|
    ensures
      match NextProcess(procs, p, d)
      case Some(s) =>
        && Leads(procs, s)
        && exists e: nat :: d <= e < |procs| && s.p == Around(p, e, |procs|)
                       && forall f :: d <= f < e ==> !HasReady(procs[Around(p, f, |procs|)])
      case None => forall f :: d <= f < |procs| ==> !HasReady(procs[Around(p, f, |procs|)])
    decreases |procs| - d
  {
    if d < |procs| {
      var q := Around(p, d, |procs|);
      FirstReadyExact(procs[q], 0);
      if FirstReady(procs[q], 0).None? {
        NextProcessExact(procs, p, d + 1);
      }
    }
  }

  lemma {:induction false} FirstProcessExact(procs: seq<seq<ThreadState>>, p: nat)
    requires p <= |procs|
    ensures
      match FirstProcess(procs, p)
      case Some(s) => Leads(procs, s) && p <= s.p && forall q :: p <= q < s.p ==> !HasReady(procs[q])
      case None => forall q :: p <= q < |procs| ==> !HasReady(procs[q])
    decreases |procs| - p
  {
    if p < |procs| {
      FirstReadyExact(procs[p], 0);
      if FirstReady(procs[p], 0).None? {
        FirstProcessExact(procs, p + 1);
      }
    }
  }

  // Any other place is some number of steps ahead.
  lemma Ahead(i: nat, j: nat, n: nat) returns (d: nat)
    requires i < n && j < n && i != j
    ensures 1 <= d < n && Around(i, d, n) == j
  {
    d := if j > i then j - i else j + n - i;
  }

  lemma ChoiceExists(m: Machine)
    requires m.Valid()
    ensures Choice(m).Some? ==> m.Has(Choice(m).value) && m.At(Choice(m).value) == Ready && Choice(m) != m.cur
  {
    match m.cur
    case None => FirstProcessExact(m.procs, 0);
    case Some(c) =>
      NextReadyExact(m.procs[c.p], c.t, 1);
      NextProcessExact(m.procs, c.p, 1);
  }

  // ----- one call

  // A call chooses nothing exactly when no thread but the current one is ready, in any process.
  lemma WorkConserving(m: Machine)
    requires m.Valid()
    ensures Choice(m) == None <==> forall s :: m.Has(s) && m.cur != Some(s) ==> m.At(s) != Ready
  {
    ChoiceExists(m);
    if Choice(m) == None {
      forall s | m.Has(s) && m.cur != Some(s)
        ensures m.At(s) != Ready
      {
        NotReady(m, s);
      }
    }
  }

  lemma NotReady(m: Machine, s: Slot)
    requires m.Valid() && Choice(m) == None && m.Has(s) && m.cur != Some(s)
    ensures m.At(s) != Ready
  {
    match m.cur
    case None =>
      FirstProcessExact(m.procs, 0);
      assert !HasReady(m.procs[s.p]);
    case Some(c) =>
      if s.p == c.p {
        var d := Ahead(c.t, s.t, |m.procs[c.p]|);
        NextReadyExact(m.procs[c.p], c.t, 1);
      } else {
        var d := Ahead(c.p, s.p, |m.procs|);
        NextProcessExact(m.procs, c.p, 1);
        assert !HasReady(m.procs[s.p]);
      }
  }

  ghost predicate SiblingReady(m: Machine)
    requires m.Valid() && m.cur.Some?
  {
    exists t :: 0 <= t < |m.procs[m.cur.value.p]| && t != m.cur.value.t && m.procs[m.cur.value.p][t] == Ready
  }

  // s is e steps after the current thread in its process, and no thread in between is ready.
  ghost predicate NextThread(m: Machine, s: Slot, e: nat)
    requires m.Valid() && m.cur.Some?
  {
    var c, ts := m.cur.value, m.procs[m.cur.value.p];
    && s.p == c.p && 1 <= e < |ts| && s.t == Around(c.t, e, |ts|) && ts[s.t] == Ready
    && forall f :: 1 <= f < e ==> ts[Around(c.t, f, |ts|)] != Ready
  }

  // s leads the process e steps after the current one, and no process in between has a ready thread.
  ghost predicate NextLeader(m: Machine, s: Slot, e: nat)
    requires m.Valid() && m.cur.Some?
  {
    var c := m.cur.value;
    && Leads(m.procs, s) && 1 <= e < |m.procs| && s.p == Around(c.p, e, |m.procs|)
    && forall f :: 1 <= f < e ==> !HasReady(m.procs[Around(c.p, f, |m.procs|)])
  }

  // The cyclically next ready thread of the current process; without one, the leader of the cyclically next process
  // that has one.
  lemma ChoiceExact(m: Machine)
    requires m.Valid() && m.cur.Some?
    ensures
      match Choice(m)
      case None => !SiblingReady(m)
      case Some(s) =>
        if SiblingReady(m) then exists e: nat :: NextThread(m, s, e) else exists e: nat :: NextLeader(m, s, e)
  {
    var c, ts := m.cur.value, m.procs[m.cur.value.p];
    NextReadyExact(ts, c.t, 1);
    match NextReady(ts, c.t, 1)
    case Some(t) =>
      var e: nat :| 1 <= e < |ts| && t == Around(c.t, e, |ts|) && ts[t] == Ready
               && forall f :: 1 <= f < e ==> ts[Around(c.t, f, |ts|)] != Ready;
      assert NextThread(m, Slot(c.p, t), e);
    case None =>
      forall t | 0 <= t < |ts| && t != c.t
        ensures ts[t] != Ready
      {
        var d := Ahead(c.t, t, |ts|);
      }
      NextProcessExact(m.procs, c.p, 1);
      if NextProcess(m.procs, c.p, 1).Some? {
        var s := NextProcess(m.procs, c.p, 1).value;
        var e: nat :| 1 <= e < |m.procs| && s.p == Around(c.p, e, |m.procs|)
                 && forall f :: 1 <= f < e ==> !HasReady(m.procs[Around(c.p, f, |m.procs|)]);
        assert NextLeader(m, s, e);
      }
  }

  // The first scheduling: the first ready thread of the first process that has one, none exactly when no process has.
  lemma FirstChoiceExact(m: Machine)
    requires m.Valid() && m.cur == None
    ensures
      match Choice(m)
      case None => forall p :: 0 <= p < |m.procs| ==> !HasReady(m.procs[p])
      case Some(s) => Leads(m.procs, s) && forall p :: 0 <= p < s.p ==> !HasReady(m.procs[p])
  {
    FirstProcessExact(m.procs, 0);
  }

  // The chosen thread runs, the thread it replaces becomes ready, every other thread stays as it is.
  function StateAfter(m: Machine, s: Slot): ThreadState
    requires m.Valid() && m.Has(s)
  {
    if Choice(m) == Some(s) then Running
    else if Choice(m).Some? && m.cur == Some(s) then Ready
    else m.At(s)
  }

  // What a call does to every thread.
  lemma ScheduleEffect(m: Machine, s: Slot)
    requires m.Valid() && m.Has(s)
    ensures
      var m' := Schedule(m);
      && m'.Valid() && m'.Has(s)
      && m'.cur == (if Choice(m) == None then m.cur else Choice(m))
      && m'.At(s) == StateAfter(m, s)
  {
    ChoiceExists(m);
  }

  // ----- runs

  ghost predicate SameShape(m: Machine, m': Machine) {
    |m'.procs| == |m.procs| && forall p :: 0 <= p < |m.procs| ==> |m'.procs[p]| == |m.procs[p]|
  }

  // State changes between calls: none makes a thread run.
  ghost predicate Changes(m: Machine, m': Machine) {
    && SameShape(m, m') && m'.cur == m.cur
    && forall s :: m.Has(s) && m'.Has(s) && m'.At(s) == Running ==> m.At(s) == Running
  }

  // Calls and changes in any order.
  ghost predicate History(ms: seq<Machine>) {
    forall i :: 0 <= i < |ms| - 1 ==>
      ms[i].Valid() && (ms[i + 1] == Schedule(ms[i]) || Changes(ms[i], ms[i + 1]))
  }

  // A running thread is the current thread.
  ghost predicate OneRunning(m: Machine) {
    forall s :: m.Has(s) && m.At(s) == Running ==> m.cur == Some(s)
  }

  lemma ScheduleKeepsShape(m: Machine)
    requires m.Valid()
    ensures Schedule(m).Valid() && SameShape(m, Schedule(m))
  {
    ChoiceExists(m);
  }

  lemma ScheduleKeepsOneRunning(m: Machine)
    requires m.Valid() && OneRunning(m)
    ensures OneRunning(Schedule(m))
  {
    ScheduleKeepsShape(m);
    var m' := Schedule(m);
    forall s | m'.Has(s) && m'.At(s) == Running
      ensures m'.cur == Some(s)
    {
      ScheduleEffect(m, s);
    }
  }

  lemma ChangesKeepOneRunning(m: Machine, m': Machine)
    requires m.Valid() && OneRunning(m) && Changes(m, m')
    ensures m'.Valid() && OneRunning(m')
  {
    forall s | m'.Has(s) && m'.At(s) == Running
      ensures m'.cur == Some(s)
    {
      assert m.Has(s) && m.At(s) == Running;
    }
  }

  // Over every history at most one thread of the whole system runs, and it is the current one.
  lemma {:induction false} AtMostOneRunning(ms: seq<Machine>, i: nat)
    requires i < |ms| && History(ms) && ms[0].Valid() && OneRunning(ms[0])
    ensures ms[i].Valid() && OneRunning(ms[i])
  {
    hide Schedule, OneRunning, Changes;
    if i > 0 {
      AtMostOneRunning(ms, i - 1);
      if ms[i] == Schedule(ms[i - 1]) {
        ScheduleKeepsShape(ms[i - 1]);
        ScheduleKeepsOneRunning(ms[i - 1]);
      } else {
        ChangesKeepOneRunning(ms[i - 1], ms[i]);
      }
    }
  }

  // The states before successive calls. Between calls every state may change, as long as the processes and their
  // sizes stay; only the choice of the current thread is left to the scheduler.
  ghost predicate Calls(ms: seq<Machine>) {
    && (forall i :: 0 <= i < |ms| ==> ms[i].Valid())
    && (forall i :: 0 <= i < |ms| - 1 ==> SameShape(ms[i], ms[i + 1]) && ms[i + 1].cur == Schedule(ms[i]).cur)
  }

  // The thread is current or ready before every call.
  ghost predicate Waits(ms: seq<Machine>, s: Slot) {
    forall i :: 0 <= i < |ms| ==> ms[i].Has(s) && (ms[i].cur == Some(s) || ms[i].At(s) == Ready)
  }

  // One call brings the current thread at least one step closer to a ready sibling, or makes it current.
  lemma CallComesCloser(m: Machine, s: Slot, d: nat)
    requires m.Valid() && m.cur.Some? && m.Has(s) && m.At(s) == Ready && s.p == m.cur.value.p
    requires 1 <= d < |m.procs[s.p]| && Around(m.cur.value.t, d, |m.procs[s.p]|) == s.t
    ensures
      var cur := Schedule(m).cur;
      && cur.Some? && cur.value.p == s.p && cur.value.t < |m.procs[s.p]|
      && exists e: nat :: e < d && Around(cur.value.t, e, |m.procs[s.p]|) == s.t
  {
    var c, n := m.cur.value, |m.procs[s.p]|;
    ChoiceExact(m);
    ChoiceExists(m);
    ScheduleEffect(m, s);
    assert SiblingReady(m) by {
      assert m.procs[c.p][s.t] == Ready && s.t != c.t;
    }
    var e: nat :| NextThread(m, Choice(m).value, e);
    assert e <= d;
    assert Around(Choice(m).value.t, d - e, n) == s.t;
  }

  // A thread of the current process that stays ready becomes current within as many calls as it is steps ahead of
  // the current thread: at most one less than the process has threads.
  lemma {:induction false} BoundedWaiting(ms: seq<Machine>, s: Slot, i: nat, d: nat)
    requires Calls(ms) && Waits(ms, s) && i + d < |ms|
    requires ms[i].cur.Some? && ms[i].cur.value.p == s.p
    requires d < |ms[i].procs[s.p]| && Around(ms[i].cur.value.t, d, |ms[i].procs[s.p]|) == s.t
    ensures exists j :: i <= j <= i + d && ms[j].cur == Some(s)
    decreases d
  {
    if d == 0 {
      assert ms[i].cur == Some(s);
    } else {
      assert ms[i].cur != Some(s) && ms[i].At(s) == Ready;
      CallComesCloser(ms[i], s, d);
      var cur, n := Schedule(ms[i]).cur, |ms[i].procs[s.p]|;
      var e: nat :| e < d && Around(cur.value.t, e, n) == s.t;
      assert SameShape(ms[i], ms[i + 1]) && ms[i + 1].cur == cur;
      BoundedWaiting(ms, s, i + 1, e);
    }
  }

  // The bound in the number of threads.
  lemma ReadySiblingRuns(ms: seq<Machine>, s: Slot)
    requires Calls(ms) && ms != [] && Waits(ms, s)
    requires ms[0].cur.Some? && ms[0].cur.value.p == s.p && |ms| >= |ms[0].procs[s.p]|
    ensures exists j :: 0 <= j < |ms[0].procs[s.p]| && ms[j].cur == Some(s)
  {
    var c := ms[0].cur.value;
    var d := 0;
    if c.t != s.t {
      d := Ahead(c.t, s.t, |ms[0].procs[s.p]|);
    }
    BoundedWaiting(ms, s, 0, d);
  }

  // The other side of it: as long as the current process has a second ready thread before every call, no call
  // leaves the process, and no thread of another process ever runs.
  lemma {:induction false} OthersStarve(ms: seq<Machine>, i: nat)
    requires Calls(ms) && i < |ms| && ms[0].cur.Some?
    requires forall j :: 0 <= j < |ms| && ms[j].cur.Some? ==> SiblingReady(ms[j])
    ensures ms[i].cur.Some? && ms[i].cur.value.p == ms[0].cur.value.p
  {
    hide SiblingReady;
    if i > 0 {
      OthersStarve(ms, i - 1);
      assert ms[i].cur == Schedule(ms[i - 1]).cur;
      SiblingKeepsProcess(ms[i - 1]);
    }
  }

  lemma SiblingKeepsProcess(m: Machine)
    requires m.Valid() && m.cur.Some? && SiblingReady(m)
    ensures Schedule(m).cur.Some? && Schedule(m).cur.value.p == m.cur.value.p
  {
    ChoiceExact(m);
    ScheduleEffect(m, m.cur.value);
    WorkConserving(m);
    var c := m.cur.value;
    var t :| 0 <= t < |m.procs[c.p]| && t != c.t && m.procs[c.p][t] == Ready;
    assert m.At(Slot(c.p, t)) == Ready;
  }

  ghost predicate OtherReady(m: Machine)
    requires m.Valid() && m.cur.Some?
  {
    exists s :: m.Has(s) && s.p != m.cur.value.p && m.At(s) == Ready
  }

  // A call leaves the process exactly when the process has no second ready thread, and another process has a ready
  // one.
  lemma LeavesExact(m: Machine)
    requires m.Valid() && m.cur.Some?
    ensures Schedule(m).cur.Some?
    ensures Schedule(m).cur.value.p != m.cur.value.p <==> !SiblingReady(m) && OtherReady(m)
  {
    hide Choice;
    ChoiceExact(m);
    ScheduleEffect(m, m.cur.value);
    WorkConserving(m);
    if OtherReady(m) {
      var s :| m.Has(s) && s.p != m.cur.value.p && m.At(s) == Ready;
      assert Choice(m).Some?;
    }
    if Choice(m).Some? && !SiblingReady(m) {
      var s := Choice(m).value;
      var e: nat :| NextLeader(m, s, e);
      assert m.Has(s) && m.At(s) == Ready && s.p != m.cur.value.p;
    }
  }

  // The current process has no second ready thread.
  ghost predicate Yields(m: Machine) {
    m.Valid() && m.cur.Some? && !SiblingReady(m)
  }

  // Such a call brings the current process closer to any process that has a ready thread.
  lemma ProcessComesCloser(m: Machine, s: Slot, d: nat)
    requires Yields(m) && m.Has(s) && m.At(s) == Ready
    requires 1 <= d < |m.procs| && Around(m.cur.value.p, d, |m.procs|) == s.p
    ensures
      var cur := Schedule(m).cur;
      && cur.Some? && cur.value.p < |m.procs|
      && exists e: nat :: e < d && Around(cur.value.p, e, |m.procs|) == s.p
  {
    hide Choice;
    var n := |m.procs|;
    ChoiceExact(m);
    ScheduleEffect(m, m.cur.value);
    WorkConserving(m);
    assert s.p != m.cur.value.p;
    var e: nat :| NextLeader(m, Choice(m).value, e);
    assert HasReady(m.procs[Around(m.cur.value.p, d, n)]) by {
      assert m.procs[s.p][s.t] == Ready;
    }
    assert e <= d;
    assert Around(Choice(m).value.p, d - e, n) == s.p;
  }

  // How many of the calls i to j - 1 find no second ready thread in the current process.
  ghost function Turns(ms: seq<Machine>, i: nat, j: nat): nat
    requires i <= j <= |ms|
    decreases j - i
  {
    if i == j then 0 else (if Yields(ms[i]) then 1 else 0) + Turns(ms, i + 1, j)
  }

  // The process of a thread that waits, d places ahead, becomes the current one once d such calls have happened.
  lemma {:induction false} ProcessReached(ms: seq<Machine>, s: Slot, i: nat, d: nat, j: nat)
    requires Calls(ms) && Waits(ms, s) && i <= j < |ms| && ms[i].cur.Some?
    requires d < |ms[i].procs| && Around(ms[i].cur.value.p, d, |ms[i].procs|) == s.p && Turns(ms, i, j) >= d
    ensures exists k :: i <= k <= j && ms[k].cur.Some? && ms[k].cur.value.p == s.p
    decreases j - i
  {
    hide SiblingReady, Choice, Schedule;
    if d == 0 {
      assert ms[i].cur.value.p == s.p;
    } else {
      var m := ms[i];
      assert m.cur != Some(s) && m.At(s) == Ready;
      assert SameShape(m, ms[i + 1]) && ms[i + 1].cur == Schedule(m).cur;
      var e := d;
      if Yields(m) {
        ProcessComesCloser(m, s, d);
        e :| 0 <= e < d && Around(Schedule(m).cur.value.p, e, |m.procs|) == s.p;
      } else {
        SiblingKeepsProcess(m);
      }
      ProcessReached(ms, s, i + 1, e, j);
    }
  }

  // Hence the thread itself runs, at most one call less than its process has threads later.
  lemma OtherProcessRuns(ms: seq<Machine>, s: Slot, i: nat, d: nat, j: nat)
    requires Calls(ms) && Waits(ms, s) && i <= j < |ms| && ms[i].cur.Some?
    requires d < |ms[i].procs| && Around(ms[i].cur.value.p, d, |ms[i].procs|) == s.p && Turns(ms, i, j) >= d
    requires j + |ms[i].procs[s.p]| <= |ms|
    ensures exists k :: i <= k < j + |ms[i].procs[s.p]| && ms[k].cur == Some(s)
  {
    hide SiblingReady, Choice, Schedule, Turns;
    ProcessReached(ms, s, i, d, j);
    var k :| i <= k <= j && ms[k].cur.Some? && ms[k].cur.value.p == s.p;
    SameSizes(ms, s.p, i, k);
    var c, n := ms[k].cur.value, |ms[k].procs[s.p]|;
    var e := 0;
    if c.t != s.t {
      e := Ahead(c.t, s.t, n);
    }
    BoundedWaiting(ms, s, k, e);
  }

  lemma {:induction false} SameSizes(ms: seq<Machine>, p: nat, i: nat, k: nat)
    requires Calls(ms) && i <= k < |ms| && p < |ms[i].procs|
    ensures |ms[k].procs| == |ms[i].procs| && |ms[k].procs[p]| == |ms[i].procs[p]|
    decreases k - i
  {
    hide Schedule;
    if i < k {
      SameSizes(ms, p, i, k - 1);
      assert SameShape(ms[k - 1], ms[k]);
    }
  }

  // A killed thread stays killed exactly when it is not the current one, or the call finds no other thread to run.
  lemma KilledThreadStays(m: Machine, s: Slot)
    requires m.Valid() && m.Has(s) && m.At(s) == Killed
    ensures Schedule(m).Has(s)
    ensures Schedule(m).At(s) == Killed
       <==> m.cur != Some(s) || forall t :: m.Has(t) && m.cur != Some(t) ==> m.At(t) != Ready
  {
    hide Schedule, Choice;
    ScheduleEffect(m, s);
    WorkConserving(m);
    ChoiceExists(m);
  }

  // A current thread that has been killed is put back to ready by the call that replaces it, and runs again.
  lemma KilledThreadReturns()
    ensures
      var m := Machine([[Killed, Ready]], Some(Slot(0, 0)));
      && Schedule(m) == Machine([[Ready, Running]], Some(Slot(0, 1)))
      && Schedule(Schedule(m)) == Machine([[Running, Ready]], Some(Slot(0, 0)))
  {
    var a, b := Slot(0, 0), Slot(0, 1);
    var m, m' := Machine([[Killed, Ready]], Some(a)), Machine([[Ready, Running]], Some(b));
    assert Around(0, 1, 2) == 1 && Around(1, 1, 2) == 0;
    assert Choice(m) == Some(b) && Choice(m') == Some(a);
    assert m.Put(a, Ready).procs[0] == [Ready, Ready] && m'.Put(b, Ready).procs[0] == [Ready, Ready];
    assert m.Put(a, Ready).procs == [[Ready, Ready]] == m'.Put(b, Ready).procs;
    assert [Ready, Ready][1 := Running] == [Ready, Running] && [Ready, Ready][0 := Running] == [Running, Ready];
  }
}
