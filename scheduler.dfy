/** The cooperative scheduler: tasks kept in an intrusive doubly linked
    list (head and tail pointers in the loop), armed with `run`, disarmed
    with `cancel`, and executed by the loop when their deadline passes. */
module Scheduler {
  import opened CInt
  import opened SysTick

  /** A callback or user-data pointer, by identity; 0 is the null pointer
      (an empty delegate). */
  type Handle = nat

  const NULL: Handle := 0

  /** The arming state of a task: armed or not, repeating or one-shot, its
      due time and its interval. */
  datatype Timing = Timing(enabled: bool, repeat: bool, nextRun: int, interval: uint32)

  /** What a task's callback does to its own task: nothing, `cancel()`, or
      `run(ms, repeat)` (which `setTimeout` and `setInterval` are). */
  datatype SelfEffect = Untouched | Cancelled | Rearmed(ms: uint32, repeat: bool)

  /** The arming a task is left with by `exec` at time `now`: a one-shot
      task is disarmed before its callback runs, the callback (if any) acts
      on the task, and a task that is then repeating is re-armed with its
      stored interval. */
  function AfterExec(t: Timing, now: int, hasCallback: bool, e: SelfEffect): (r: Timing)
    ensures r.repeat ==> r.enabled && r.nextRun == now + r.interval
    ensures t.repeat && (!hasCallback || !e.Rearmed?) ==> r == Timing(true, true, now + t.interval, t.interval)
    ensures !t.repeat && (!hasCallback || !e.Rearmed?) ==> !r.enabled && !r.repeat
    ensures hasCallback && e.Rearmed? ==>
      r.enabled && r.repeat == e.repeat && r.interval == e.ms && r.nextRun == now + e.ms
  {
    Rearm(Called(Disarm(t), now, hasCallback, e), now)
  }

  /** The first step of `exec`: a one-shot task is disarmed. */
  function Disarm(t: Timing): Timing
  {
    if t.repeat then t else t.(enabled := false)
  }

  /** The second step of `exec`: the callback, if there is one, acts. */
  function Called(t: Timing, now: int, hasCallback: bool, e: SelfEffect): Timing
  {
    if hasCallback then Effect(t, now, e) else t
  }

  /** The last step of `exec`: a repeating task is armed again. */
  function Rearm(t: Timing, now: int): Timing
  {
    if t.repeat then Timing(true, true, now + t.interval, t.interval) else t
  }

  /** The arming a callback leaves its own task with. */
  function Effect(t: Timing, now: int, e: SelfEffect): (r: Timing)
    ensures e.Untouched? ==> r == t
    ensures e.Cancelled? ==> !r.enabled && r.repeat == t.repeat && r.interval == t.interval
    ensures e.Rearmed? ==> r.enabled && r.repeat == e.repeat && r.interval == e.ms && r.nextRun == now + e.ms
  {
    match e
    case Untouched => t
    case Cancelled => t.(enabled := false)
    case Rearmed(ms, repeat) => Timing(true, repeat, now + ms, ms)
  }

  /** `m_changed++` on the 32-bit counter. */
  function Bump(c: uint32): (r: uint32)
    ensures r == U32(c + 1)
  {
    if c == 0xFFFF_FFFF then 0 else c + 1
  }

  /** `s` without the occurrences of `t`. */
  function Without(s: seq<Task>, t: Task): (r: seq<Task>)
    ensures t !in r && |r| <= |s|
  {
    if s == [] then []
    else (if s[0] == t then [] else [s[0]]) + Without(s[1..], t)
  }

  ghost function IndexOf(s: seq<Task>, t: Task): (k: nat)
    requires t in s
    ensures k < |s| && s[k] == t
  {
    if s[0] == t then 0 else 1 + IndexOf(s[1..], t)
  }

  predicate Distinct(s: seq<Task>)
  {
    forall i, j :: 0 <= i < j < |s| ==> s[i] != s[j]
  }

  /** Removing the task at position k of a list without repetitions cuts
      exactly that position out. */
  lemma {:induction false} WithoutAt(s: seq<Task>, k: nat)
    requires Distinct(s) && k < |s|
    ensures Without(s, s[k]) == s[..k] + s[k + 1..]
  {
    if k == 0 {
      WithoutAbsent(s[1..], s[0]);
    } else {
      var t := s[1..];
      DistinctTail(s);
      assert t[k - 1] == s[k] && s[0] != s[k];
      WithoutAt(t, k - 1);
      assert Without(s, s[k]) == [s[0]] + Without(t, s[k]);
      assert s[..k] + s[k + 1..] == [s[0]] + (t[..k - 1] + t[k..]);
    }
  }

  lemma DistinctTail(s: seq<Task>)
    requires Distinct(s) && s != []
    ensures Distinct(s[1..])
  {
    forall i, j | 0 <= i < j < |s| - 1 ensures s[1..][i] != s[1..][j] {
      assert s[1..][i] == s[i + 1] && s[1..][j] == s[j + 1];
    }
  }

  /** Removing a task distributes over concatenation. */
  lemma {:induction false} WithoutAppend(a: seq<Task>, b: seq<Task>, t: Task)
    ensures Without(a + b, t) == Without(a, t) + Without(b, t)
  {
    if a != [] {
      WithoutAppend(a[1..], b, t);
      assert (a + b)[0] == a[0] && (a + b)[1..] == a[1..] + b;
      var h := if a[0] == t then [] else [a[0]];
      assert Without(a + b, t) == h + (Without(a[1..], t) + Without(b, t));
      assert Without(a, t) == h + Without(a[1..], t);
    } else {
      assert a + b == b;
    }
  }

  /** Removing a task again from a list it was removed from and perhaps
      appended to gives the same list. */
  lemma WithoutRemoved(s: seq<Task>, t: Task)
    ensures Without(Without(s, t), t) == Without(s, t)
    ensures Without(Without(s, t) + [t], t) == Without(s, t)
  {
    WithoutAppend(Without(s, t), [t], t);
    WithoutAbsent(Without(s, t), t);
    assert Without([t], t) == [];
    assert Without(s, t) + [] == Without(s, t);
  }

  /** Removing a task that is not in the list changes nothing. */
  lemma {:induction false} WithoutAbsent(s: seq<Task>, t: Task)
    requires t !in s
    ensures Without(s, t) == s
  {
    if s != [] {
      WithoutAbsent(s[1..], t);
      assert s == [s[0]] + s[1..];
    }
  }

  /** The members of a list without repetitions with position k cut out. */
  lemma RemovedMembers(s: seq<Task>, k: nat)
    requires Distinct(s) && k < |s|
    ensures forall u :: u in s[..k] + s[k + 1..] <==> u in s && u != s[k]
  {
    forall u ensures u in s[..k] + s[k + 1..] <==> u in s && u != s[k] {
      if u in s[..k] + s[k + 1..] {
        var j :| 0 <= j < |s[..k] + s[k + 1..]| && (s[..k] + s[k + 1..])[j] == u;
        if j < k { assert u == s[j]; } else { assert u == s[j + 1]; }
      }
      if u in s && u != s[k] {
        var j :| 0 <= j < |s| && s[j] == u;
        if j < k { assert (s[..k] + s[k + 1..])[j] == u; }
        else { assert (s[..k] + s[k + 1..])[j - 1] == u; }
      }
    }
  }

  /** One visit of a pass: the task under the cursor, the successor read
      before anything runs, whether a callback is set, the arming before and
      after, and whether the task was executed. */
  datatype Visit = Visit(task: Task, succ: Task?, hasCallback: bool, before: Timing, executed: bool, after: Timing)

  /** The rule of one visit at time `now`: a task is executed exactly when it
      is armed and due, and then its arming is what `exec` leaves; a task
      that is not executed is left as it was. */
  ghost predicate Follows(v: Visit, now: int, effect: Task -> SelfEffect)
  {
    && v.executed == (v.before.enabled && now >= v.before.nextRun)
    && v.after == (if v.executed then AfterExec(v.before, now, v.hasCallback, effect(v.task)) else v.before)
  }

  /** A visit contributes to the deadline when the task was armed on arrival
      and is still armed after its visit. */
  ghost predicate Pending(v: Visit)
  {
    v.before.enabled && v.after.enabled
  }

  /** The deadline a pass computes: starting from `cap`, the minimum over the
      pending visits of their due time. */
  ghost function Deadline(cap: int, trace: seq<Visit>): int
  {
    if trace == [] then cap
    else
      var d := Deadline(cap, trace[..|trace| - 1]);
      var v := trace[|trace| - 1];
      if Pending(v) && v.after.nextRun < d then v.after.nextRun else d
  }

  /** The deadline never exceeds the cap it starts from. */
  lemma {:induction false} DeadlineAtMostCap(cap: int, trace: seq<Visit>)
    ensures Deadline(cap, trace) <= cap
  {
    if trace != [] {
      DeadlineAtMostCap(cap, trace[..|trace| - 1]);
    }
  }

  /** The deadline is the least of `cap` and the pending due times: it is no
      later than any of them and equal to one of them. */
  lemma {:induction false} DeadlineIsMinimum(cap: int, trace: seq<Visit>)
    ensures Deadline(cap, trace) <= cap
    ensures forall i :: 0 <= i < |trace| && Pending(trace[i]) ==> Deadline(cap, trace) <= trace[i].after.nextRun
    ensures Deadline(cap, trace) == cap
      || exists i :: 0 <= i < |trace| && Pending(trace[i]) && Deadline(cap, trace) == trace[i].after.nextRun
  {
    if trace != [] {
      var init := trace[..|trace| - 1];
      DeadlineIsMinimum(cap, init);
      forall i | 0 <= i < |init| ensures init[i] == trace[i] { }
    }
  }

  /** The traversal of a pass: it starts at the head, each visit goes to the
      successor captured by the one before, and a pass that finished ran off
      the end of the list. */
  ghost predicate Chained(head: Task?, trace: seq<Visit>, cursor: Task?)
  {
    && (trace == [] ==> cursor == head)
    && (trace != [] ==> trace[0].task == head && trace[|trace| - 1].succ == cursor)
    && (forall i :: 0 <= i < |trace| - 1 ==> trace[i + 1].task == trace[i].succ)
  }

  /** Where a pass stands: the visits so far follow each other from the
      head to `cursor`, each one obeys the rule of a visit, and `deadline`
      is the deadline they give. */
  ghost predicate Progress(head: Task?, trace: seq<Visit>, cursor: Task?, now: int, effect: Task -> SelfEffect, cap: int, deadline: int)
  {
    && Chained(head, trace, cursor)
    && (forall i :: 0 <= i < |trace| ==> Follows(trace[i], now, effect))
    && deadline == Deadline(cap, trace)
  }

  /** A pass goes on with one more visit, to the task the last one
      captured as its successor. */
  lemma ExtendTrace(head: Task?, trace: seq<Visit>, v: Visit, now: int, effect: Task -> SelfEffect, cap: int, deadline: int)
    requires Progress(head, trace, v.task, now, effect, cap, deadline) && Follows(v, now, effect)
    ensures Progress(head, trace + [v], v.succ, now, effect, cap,
      if Pending(v) && v.after.nextRun < deadline then v.after.nextRun else deadline)
  {
    assert (trace + [v])[..|trace|] == trace;
  }

  /** The arming a pass leaves `t` with: what its last visit left, or
      `init` when the trace never visited it. */
  ghost function Replayed(t: Task, trace: seq<Visit>, init: Timing): Timing
  {
    if trace == [] then init
    else if trace[|trace| - 1].task == t then trace[|trace| - 1].after
    else Replayed(t, trace[..|trace| - 1], init)
  }

  /** Each visit of the trace starts from the arming the visits before it
      left its task with, `init` giving the armings at the start. */
  ghost predicate Tied(trace: seq<Visit>, init: map<Task, Timing>)
  {
    forall i :: 0 <= i < |trace| ==>
      trace[i].task in init && trace[i].before == Replayed(trace[i].task, trace[..i], init[trace[i].task])
  }

  /** A visit that starts from the arming the trace left its task with
      extends a tied trace. */
  lemma TiedExtend(trace: seq<Visit>, v: Visit, init: map<Task, Timing>)
    requires Tied(trace, init) && v.task in init && v.before == Replayed(v.task, trace, init[v.task])
    ensures Tied(trace + [v], init)
  {
    forall i | 0 <= i < |trace| + 1
      ensures (trace + [v])[i].task in init
      ensures (trace + [v])[i].before == Replayed((trace + [v])[i].task, (trace + [v])[..i], init[(trace + [v])[i].task])
    {
      assert (trace + [v])[..i] == if i < |trace| then trace[..i] else trace;
    }
  }

  /** A task a tied trace never executed ends with the arming it started
      with: a visit that does not execute leaves the arming as it was. */
  lemma {:induction false} UnranKeeps(trace: seq<Visit>, init: map<Task, Timing>, t: Task, now: int, effect: Task -> SelfEffect)
    requires Tied(trace, init) && t in init && !Ran(trace, t)
    requires forall i :: 0 <= i < |trace| ==> Follows(trace[i], now, effect)
    ensures Replayed(t, trace, init[t]) == init[t]
  {
    if trace != [] {
      var n := |trace| - 1;
      var p := trace[..n];
      forall i | 0 <= i < n
        ensures p[i] == trace[i] && p[..i] == trace[..i]
        ensures !(p[i].task == t && p[i].executed)
      {
      }
      UnranKeeps(p, init, t, now, effect);
      if trace[n].task == t {
        assert !trace[n].executed;
      }
    }
  }

  /** The trace executed `t` at least once. */
  ghost predicate Ran(trace: seq<Visit>, t: Task)
  {
    exists i :: 0 <= i < |trace| && trace[i].task == t && trace[i].executed
  }

  /** One more visit runs `t` exactly when it runs `t` itself or a visit
      before it did. */
  lemma RanExtend(trace: seq<Visit>, v: Visit, t: Task)
    ensures Ran(trace + [v], t) <==> Ran(trace, t) || (v.task == t && v.executed)
  {
    var s := trace + [v];
    assert forall i :: 0 <= i < |trace| ==> s[i] == trace[i];
    assert s[|trace|] == v;
  }

  /** Removing the first task of the part of a list a pass has not yet
      reached cuts exactly that task out. */
  lemma WithoutFront(done: seq<Task>, rest: seq<Task>)
    requires Distinct(done + rest) && rest != []
    ensures Without(done + rest, rest[0]) == done + rest[1..]
  {
    var s := done + rest;
    WithoutAt(s, |done|);
    assert s[..|done|] == done && s[|done| + 1..] == rest[1..];
  }

  /** Where a visit leaves the split of the list into the part a pass has
      settled and the part still ahead, when the list was `done + rest`
      and the visit was to `rest[0]`: a task not executed, or re-armed at
      the end of the list, joins the settled part; a cancelled task drops
      out; a task re-armed earlier moves behind the rest. */
  lemma Resplit(done: seq<Task>, rest: seq<Task>, executed: bool, armed: bool) returns (done': seq<Task>, rest': seq<Task>)
    requires Distinct(done + rest) && rest != []
    ensures done' + rest' ==
      if !executed then done + rest
      else if armed then Without(done + rest, rest[0]) + [rest[0]]
      else Without(done + rest, rest[0])
    ensures (rest' == [] <==> |rest| == 1) && (rest' != [] ==> rest'[0] == rest[1])
    ensures done' == done || (done' == done + [rest[0]] && (!executed || armed))
    ensures forall t :: t in rest[1..] ==> t in rest'
  {
    WithoutFront(done, rest);
    if !executed {
      done', rest' := done + [rest[0]], rest[1..];
      assert done + rest == done + ([rest[0]] + rest[1..]);
    } else if !armed {
      done', rest' := done, rest[1..];
    } else if |rest| == 1 {
      done', rest' := done + [rest[0]], [];
    } else {
      done', rest' := done, rest[1..] + [rest[0]];
    }
  }

  /** A task other than the removed one stays in the list. */
  lemma {:induction false} WithoutKeeps(s: seq<Task>, t: Task, u: Task)
    requires u in s && u != t
    ensures u in Without(s, t)
  {
    if s[0] != u {
      WithoutKeeps(s[1..], t, u);
    }
  }

  class Task {
    var callback: Handle
    var userData: Handle
    var next: Task?
    var prev: Task?
    /** `m_loop`: re-arm after every execution. */
    var repeat: bool
    var enabled: bool
    var nextRun: int
    var interval: uint32

    /** A new task is disabled, one-shot, unlinked, due at 0 with interval
        0, and has no callback. */
    constructor ()
      ensures callback == NULL && userData == NULL && next == null && prev == null
      ensures !repeat && !enabled && nextRun == 0 && interval == 0
    {
      callback, userData := NULL, NULL;
      next, prev := null, null;
      repeat, enabled := false, false;
      nextRun, interval := 0, 0;
    }

    /** The arming fields, as one value. */
    function Arming(): Timing
      reads this`enabled, this`repeat, this`nextRun, this`interval
    {
      Timing(enabled, repeat, nextRun, interval)
    }

    /** Stores the callback and its argument; the task is neither armed nor
        linked. */
    method Init(cb: Handle, data: Handle)
      modifies this`callback, this`userData
      ensures callback == cb && userData == data
    {
      callback := cb;
      userData := data;
    }

    /** Arms the task `ms` milliseconds from now at the tail of the list,
        first unlinking it if it was armed (its old deadline is dropped). */
    method Run(loop: Loop, ms: uint32, loopMode: bool)
      requires loop.Valid() && this in loop.all
      modifies loop`first, loop`last, loop`tasks, loop`changed, this, loop.all`prev, loop.all`next
      ensures loop.Valid()
      ensures loop.tasks == Without(old(loop.tasks), this) + [this]
      ensures Arming() == Timing(true, loopMode, loop.ticks + ms, ms)
      ensures callback == old(callback) && userData == old(userData)
      ensures loop.changed == if old(enabled) then Bump(Bump(old(loop.changed))) else Bump(old(loop.changed))
    {
      if enabled {
        Cancel(loop);
      } else {
        WithoutAbsent(loop.tasks, this);
      }
      Append(loop, ms, loopMode);
      loop.OnChange();
    }

    /** The rest of `run` once the task is disarmed: the timing fields are
        set and the task becomes the new tail, or the only element of an
        empty list. */
    method Append(loop: Loop, ms: uint32, loopMode: bool)
      requires loop.Valid() && this in loop.all && !enabled
      modifies loop`first, loop`last, loop`tasks, loop.all`next
      modifies this`prev, this`next, this`enabled, this`interval, this`nextRun, this`repeat
      ensures loop.Valid() && loop.tasks == old(loop.tasks) + [this]
      ensures enabled && nextRun == loop.ticks + ms && interval == ms && repeat == loopMode
    {
      interval := ms;
      nextRun := loop.ticks + ms;
      repeat := loopMode;
      ghost var s := loop.tasks;
      Link(loop);
      enabled := true;
      loop.tasks := s + [this];
      forall u | u in loop.all
        ensures u.enabled <==> u in loop.tasks
        ensures !u.enabled ==> u.prev == null && u.next == null
      {
        if u != this && !u.enabled {
          assert u !in s;
          assert u.next == old(u.next);
        }
      }
    }

    /** The pointer surgery of `run`: the task becomes the new tail (and the
        head too when the list was empty). */
    method Link(loop: Loop)
      requires loop.Valid() && this in loop.all && !enabled
      modifies loop`first, loop`last, this`prev, this`next
      modifies (if loop.tasks != [] then {loop.tasks[|loop.tasks| - 1]} else {})`next
      ensures Loop.Linked(loop.tasks + [this]) && Distinct(loop.tasks + [this])
      ensures loop.first == (loop.tasks + [this])[0] && loop.last == this
    {
      ghost var s := loop.tasks;
      assert this !in s;
      if s != [] {
        Loop.LinkedAt(s, |s| - 1);
      }
      if loop.last == null {
        loop.first := this;
        loop.last := this;
      } else {
        loop.last.next := this;
        prev := loop.last;
        next := null;
        loop.last := this;
      }
      Loop.AppendedLinked(s, this);
    }

    /** `exec`: a one-shot task is disarmed first, then the callback runs
        (acting on its own task as `effect` says), then a task that is
        repeating at that point is re-armed with its stored interval. */
    method Exec(loop: Loop, effect: SelfEffect)
      requires loop.Valid() && this in loop.all
      modifies loop`first, loop`last, loop`tasks, loop`changed, this, loop.all`prev, loop.all`next
      ensures loop.Valid()
      ensures Arming() == AfterExec(old(Arming()), loop.ticks, old(callback) != NULL, effect)
      ensures loop.tasks == if enabled then Without(old(loop.tasks), this) + [this] else Without(old(loop.tasks), this)
      ensures callback == old(callback) && userData == old(userData)
    {
      ghost var s := loop.tasks;
      if !repeat {
        Cancel(loop);
        WithoutRemoved(s, this);
      }
      Resume(loop, effect, s);
    }

    /** The rest of `exec` once a one-shot task is disarmed: the callback,
        then the re-arm of a repeating task. */
    method Resume(loop: Loop, effect: SelfEffect, ghost s: seq<Task>)
      requires loop.Valid() && this in loop.all
      requires Without(loop.tasks, this) == Without(s, this)
      requires repeat || (loop.tasks == Without(s, this) && !enabled)
      modifies loop`first, loop`last, loop`tasks, loop`changed, this, loop.all`prev, loop.all`next
      ensures loop.Valid()
      ensures Arming() == Rearm(Called(old(Arming()), loop.ticks, old(callback) != NULL, effect), loop.ticks)
      ensures loop.tasks == if enabled then Without(s, this) + [this] else Without(s, this)
      ensures callback == old(callback) && userData == old(userData)
    {
      if callback != NULL {
        ghost var s1 := loop.tasks;
        Call(loop, effect);
        WithoutRemoved(s1, this);
      }
      if repeat {
        Run(loop, interval, true);
      }
    }

    /** The callback of `exec`, acting on its own task. */
    method Call(loop: Loop, effect: SelfEffect)
      requires loop.Valid() && this in loop.all
      modifies loop`first, loop`last, loop`tasks, loop`changed, this, loop.all`prev, loop.all`next
      ensures loop.Valid()
      ensures Arming() == Effect(old(Arming()), loop.ticks, effect)
      ensures if effect.Untouched? then loop.tasks == old(loop.tasks)
        else if enabled then loop.tasks == Without(old(loop.tasks), this) + [this]
        else loop.tasks == Without(old(loop.tasks), this)
      ensures callback == old(callback) && userData == old(userData)
    {
      match effect {
        case Untouched =>
        case Cancelled =>
          Cancel(loop);
        case Rearmed(ms, loopMode) =>
          Run(loop, ms, loopMode);
      }
    }

    /** `setTimeout`: a one-shot run. */
    method SetTimeout(loop: Loop, ms: uint32)
      requires loop.Valid() && this in loop.all
      modifies loop`first, loop`last, loop`tasks, loop`changed, this, loop.all`prev, loop.all`next
      ensures loop.Valid()
      ensures loop.tasks == Without(old(loop.tasks), this) + [this]
      ensures Arming() == Timing(true, false, loop.ticks + ms, ms)
      ensures callback == old(callback) && userData == old(userData)
    {
      Run(loop, ms, false);
    }

    /** `setInterval`: a repeating run. */
    method SetInterval(loop: Loop, ms: uint32)
      requires loop.Valid() && this in loop.all
      modifies loop`first, loop`last, loop`tasks, loop`changed, this, loop.all`prev, loop.all`next
      ensures loop.Valid()
      ensures loop.tasks == Without(old(loop.tasks), this) + [this]
      ensures Arming() == Timing(true, true, loop.ticks + ms, ms)
      ensures callback == old(callback) && userData == old(userData)
    {
      Run(loop, ms, true);
    }

    /** Disarms the task: unlinks it, repairing the head, the tail and both
        neighbours. A disarmed task is left as it is and the change counter
        does not move. The repeat flag is kept. */
    method Cancel(loop: Loop)
      requires loop.Valid() && this in loop.all
      modifies loop`first, loop`last, loop`tasks, loop`changed, this, loop.all`prev, loop.all`next
      ensures loop.Valid()
      ensures loop.tasks == Without(old(loop.tasks), this)
      ensures next == null && prev == null
      ensures Arming() == old(Arming()).(enabled := false)
      ensures callback == old(callback) && userData == old(userData)
      ensures loop.changed == if old(enabled) then Bump(old(loop.changed)) else old(loop.changed)
    {
      if !enabled {
        WithoutAbsent(loop.tasks, this);
        return;
      }
      Detach(loop);
      loop.OnChange();
    }

    /** The armed branch of `cancel` up to the change counter: unlink, then
        clear the enabled flag. */
    method Detach(loop: Loop)
      requires loop.Valid() && this in loop.all && enabled
      modifies loop`first, loop`last, loop`tasks, this`enabled, loop.all`prev, loop.all`next
      ensures loop.Valid()
      ensures loop.tasks == Without(old(loop.tasks), this)
      ensures next == null && prev == null && !enabled
    {
      ghost var s := loop.tasks;
      ghost var k := IndexOf(s, this);
      ghost var r := s[..k] + s[k + 1..];
      RemovedMembers(s, k);
      Unlink(loop, s, k);
      WithoutAt(s, k);
      forall u | u in loop.all && u != this
        ensures u.enabled <==> u in r
        ensures u !in r ==> u.prev == null && u.next == null
      {
        if u !in s {
          assert u.prev == old(u.prev) && u.next == old(u.next);
        }
      }
      Retire(loop, r);
    }

    /** The bookkeeping of `cancel` once the task is unlinked: it is marked
        disarmed and leaves the list of armed tasks. */
    method Retire(loop: Loop, ghost r: seq<Task>)
      requires Loop.Linked(r) && Distinct(r) && this !in r && enabled
      requires forall t :: t in r ==> t in loop.all
      requires if r == [] then loop.first == null && loop.last == null
        else loop.first == r[0] && loop.last == r[|r| - 1]
      requires prev == null && next == null && this in loop.all
      requires forall u :: u in loop.all && u != this ==> (u.enabled <==> u in r)
      requires forall u :: u in loop.all && u != this && u !in r ==> u.prev == null && u.next == null
      modifies loop`tasks, this`enabled
      ensures loop.Valid() && loop.tasks == r && !enabled
    {
      enabled := false;
      loop.tasks := r;
    }

    /** The pointer surgery of `cancel`: the neighbours of position k are
        linked to each other (or become the head or the tail) and the task's
        own links are cleared. */
    method Unlink(loop: Loop, ghost s: seq<Task>, ghost k: nat)
      requires loop.Valid() && s == loop.tasks && k < |s| && s[k] == this
      modifies loop`first, loop`last, this`prev, this`next
      modifies (if k > 0 then {s[k - 1]} else {})`next, (if k + 1 < |s| then {s[k + 1]} else {})`prev
      ensures Loop.Linked(s[..k] + s[k + 1..]) && Distinct(s[..k] + s[k + 1..])
      ensures if |s| == 1 then loop.first == null && loop.last == null
        else loop.first == (s[..k] + s[k + 1..])[0] && loop.last == (s[..k] + s[k + 1..])[|s| - 2]
      ensures prev == null && next == null
    {
      Loop.LinkedAt(s, k);
      if k > 0 { Loop.LinkedAt(s, k - 1); }
      if k + 1 < |s| { Loop.LinkedAt(s, k + 1); }
      if this == loop.first {
        loop.first := next;
      }
      if this == loop.last {
        loop.last := prev;
      }
      if prev != null {
        prev.next := next;
      }
      if next != null {
        next.prev := prev;
      }
      prev := null;
      next := null;
      forall i | 0 <= i < |s| && i != k - 1 && i != k && i != k + 1
        ensures s[i].prev == (if i == 0 then null else s[i - 1])
        ensures s[i].next == (if i + 1 == |s| then null else s[i + 1])
      {
        assert s[i] != s[k] && (k > 0 ==> s[i] != s[k - 1]) && (k + 1 < |s| ==> s[i] != s[k + 1]);
        assert old(s[i].prev) == (if i == 0 then null else s[i - 1]);
        assert old(s[i].next) == (if i + 1 == |s| then null else s[i + 1]);
      }
      if k > 0 {
        assert s[k - 1] != s[k] && (k + 1 < |s| ==> s[k - 1] != s[k + 1]);
        assert old(s[k - 1].prev) == (if k == 1 then null else s[k - 2]);
      }
      if k + 1 < |s| {
        assert s[k + 1] != s[k];
        assert old(s[k + 1].next) == (if k + 2 == |s| then null else s[k + 2]);
      }
      Loop.RemovedLinked(s, k);
    }
  }

  class Loop {
    var first: Task?
    var last: Task?
    /** `m_changed`: bumped by every run and every effective cancel. */
    var changed: uint32
    var lastLog: int
    /** `m_ticks`: milliseconds since start. */
    var ticks: int
    var countsPerTick: uint32
    var maxIdle: uint32
    /** The armed tasks in list order. */
    ghost var tasks: seq<Task>
    /** Every task that may be armed on this loop. */
    ghost var all: set<Task>

    static ghost predicate Linked(s: seq<Task>)
      reads s`prev, s`next
    {
      && (forall i {:trigger s[i].prev} :: 0 <= i < |s| ==> s[i].prev == (if i == 0 then null else s[i - 1]))
      && (forall i {:trigger s[i].next} :: 0 <= i < |s| ==> s[i].next == (if i + 1 == |s| then null else s[i + 1]))
    }

    ghost predicate Valid()
      reads this`first, this`last, this`tasks, this`all, all`enabled, all`prev, all`next
    {
      && (forall t :: t in tasks ==> t in all)
      && Distinct(tasks)
      && (if tasks == [] then first == null && last == null
          else first == tasks[0] && last == tasks[|tasks| - 1])
      && Linked(tasks)
      && (forall t :: t in all ==> (t.enabled <==> t in tasks))
      && (forall t :: t in all && !t.enabled ==> t.prev == null && t.next == null)
    }

    static lemma LinkedAt(s: seq<Task>, k: nat)
      requires Linked(s) && k < |s|
      ensures s[k].prev == (if k == 0 then null else s[k - 1])
      ensures s[k].next == (if k + 1 == |s| then null else s[k + 1])
    {
    }

    /** Cutting position k out of a linked list whose neighbours of k have
        been re-linked to each other leaves a linked list. */
    static lemma RemovedLinked(s: seq<Task>, k: nat)
      requires k < |s| && Distinct(s)
      requires forall i {:trigger s[i].prev} :: 0 <= i < |s| && i != k - 1 && i != k && i != k + 1 ==>
        s[i].prev == (if i == 0 then null else s[i - 1])
      requires forall i {:trigger s[i].next} :: 0 <= i < |s| && i != k - 1 && i != k && i != k + 1 ==>
        s[i].next == (if i + 1 == |s| then null else s[i + 1])
      requires k > 0 ==>
        s[k - 1].next == (if k + 1 == |s| then null else s[k + 1])
        && s[k - 1].prev == (if k == 1 then null else s[k - 2])
      requires k + 1 < |s| ==>
        s[k + 1].prev == (if k == 0 then null else s[k - 1])
        && s[k + 1].next == (if k + 2 == |s| then null else s[k + 2])
      ensures Linked(s[..k] + s[k + 1..]) && Distinct(s[..k] + s[k + 1..])
    {
      var r := s[..k] + s[k + 1..];
      forall i, j | 0 <= i < j < |r| ensures r[i] != r[j] {
        var i', j' := if i < k then i else i + 1, if j < k then j else j + 1;
        assert r[i] == s[i'] && r[j] == s[j'];
      }
      forall i | 0 <= i < |r|
        ensures r[i].prev == (if i == 0 then null else r[i - 1])
        ensures r[i].next == (if i + 1 == |r| then null else r[i + 1])
      {
        if i < k {
          assert r[i] == s[i];
          if i > 0 { assert r[i - 1] == s[i - 1]; }
          if i + 1 < k { assert r[i + 1] == s[i + 1]; }
          if i + 1 == k && k + 1 < |s| { assert r[i + 1] == s[k + 1]; }
        } else {
          assert r[i] == s[i + 1];
          if i > 0 && i == k { assert r[i - 1] == s[k - 1]; }
          if i > k { assert r[i - 1] == s[i]; }
          if i + 1 < |r| { assert r[i + 1] == s[i + 2]; }
        }
      }
    }

    /** Appending a task not yet in a linked list, after linking it behind
        the old tail, leaves a linked list without repetitions. */
    static lemma AppendedLinked(s: seq<Task>, t: Task)
      requires Distinct(s) && t !in s
      requires forall i {:trigger s[i].prev} :: 0 <= i < |s| ==> s[i].prev == (if i == 0 then null else s[i - 1])
      requires forall i {:trigger s[i].next} :: 0 <= i && i + 1 < |s| ==> s[i].next == s[i + 1]
      requires s != [] ==> s[|s| - 1].next == t && t.prev == s[|s| - 1]
      requires s == [] ==> t.prev == null
      requires t.next == null
      ensures Linked(s + [t]) && Distinct(s + [t])
    {
      var r := s + [t];
      forall i, j | 0 <= i < j < |r| ensures r[i] != r[j] {
        if j == |s| { assert r[i] == s[i] && r[i] in s; } else { assert r[i] == s[i] && r[j] == s[j]; }
      }
      forall i | 0 <= i < |r|
        ensures r[i].prev == (if i == 0 then null else r[i - 1])
        ensures r[i].next == (if i + 1 == |r| then null else r[i + 1])
      {
        if i < |s| {
          assert r[i] == s[i];
          if i > 0 { assert r[i - 1] == s[i - 1]; }
          if i + 1 < |s| { assert r[i + 1] == s[i + 1]; }
        }
      }
    }

    /** The arming of every task of the loop. */
    ghost function Armings(): map<Task, Timing>
      reads this`all, all`enabled, all`repeat, all`nextRun, all`interval
    {
      map t | t in all :: t.Arming()
    }

    /** `onChange`: the 32-bit change counter moves by one. */
    method OnChange()
      modifies this`changed
      ensures changed == Bump(old(changed))
    {
      changed := Bump(changed);
    }

    /** The loop's statics as the program starts: an empty list, the
        counters at 0, and SysTick not yet configured. */
    constructor ()
      ensures Valid() && tasks == [] && all == {}
      ensures changed == 0 && lastLog == 0 && ticks == 0 && countsPerTick == 0 && maxIdle == 0
    {
      first, last := null, null;
      changed, lastLog, ticks := 0, 0, 0;
      countsPerTick, maxIdle := 0, 0;
      tasks, all := [], {};
    }

    /** Makes a disarmed task one of those the loop may run. */
    ghost method Adopt(t: Task)
      requires Valid() && !t.enabled && t.prev == null && t.next == null
      modifies this`all
      ensures Valid() && all == old(all) + {t}
    {
      all := all + {t};
    }

    /** SysTick is set up as `init` leaves it. */
    predicate Configured()
      reads this`countsPerTick, this`maxIdle
    {
      1 <= countsPerTick <= RELOAD_MAX && maxIdle == MaxIdle(countsPerTick)
    }

    /** `init`: derives the counts per millisecond from the AHB clock and
        the longest idle wait from the 24-bit reload range. */
    method Init(ahb: uint32)
      requires ahb >= 8000
      modifies this`countsPerTick, this`maxIdle
      ensures Configured() && countsPerTick == CountsPerTick(ahb)
      ensures maxIdle >= 31 && countsPerTick * maxIdle <= RELOAD_MAX
    {
      countsPerTick := CountsPerTick(ahb);
      maxIdle := MaxIdle(countsPerTick);
      MaxIdleCovers(countsPerTick);
    }

    /** `ms()`: the tick counter. */
    function Ms(): int
      reads this`ticks
    {
      ticks
    }

    /** `first()` and `last()`: the head and tail pointers. */
    function First(): Task?
      reads this`first
    {
      first
    }

    function Last(): Task?
      reads this`last
    {
      last
    }

    /** `first(task)`: the next `first()` returns the task. */
    method SetFirst(task: Task?)
      modifies this`first
      ensures First() == task
    {
      first := task;
    }

    /** `last(task)`: the next `last()` returns the task. */
    method SetLast(task: Task?)
      modifies this`last
      ensures Last() == task
    {
      last := task;
    }

    /** `tick()`, from the SysTick interrupt: one more millisecond. */
    method Tick()
      modifies this`ticks
      ensures Ms() == old(Ms()) + 1
    {
      ticks := ticks + 1;
    }

    /** `log()`: the milliseconds since the previous call (0 on the first
        one), and the current time is recorded. */
    method Log() returns (r: uint32)
      modifies this`lastLog
      ensures r == Elapsed(old(lastLog), Ms()) && lastLog == Ms()
      ensures old(lastLog) != 0 && 0 <= Ms() - old(lastLog) < TWO_32 ==> r == Ms() - old(lastLog)
    {
      var now := ticks;
      r := Elapsed(lastLog, now);
      lastLog := now;
    }

    /** `idleFor`: the request is clamped, SysTick is reloaded to run out at
        the end of the wait, and on waking the tick counter is advanced by
        the milliseconds that went by. What the hardware reports is given
        as parameters: `cvr` is the counter value before reloading,
        `countedToZero` the COUNTFLAG and `remaining` the counter value on
        waking. The tick counter never goes back, and when the counter was
        configured by `init` the reload fits its 24 bits and the advance is
        at most the wait. */
    method IdleFor(idleTime: uint32, cvr: uint32, countedToZero: bool, remaining: uint32) returns (reload: uint32)
      requires Configured()
      modifies this`ticks
      ensures var idle := Clamp(idleTime, maxIdle);
        && reload == Reload(cvr, countsPerTick, idle)
        && Ms() == old(Ms()) + Slept(idle, countsPerTick, countedToZero, remaining)
      ensures Ms() >= old(Ms())
      ensures idleTime >= 1 && cvr <= countsPerTick ==> reload <= RELOAD_MAX
      ensures idleTime >= 1 && cvr <= countsPerTick && remaining <= reload ==> Ms() <= old(Ms()) + idleTime
    {
      var idle := Clamp(idleTime, maxIdle);
      reload := Reload(cvr, countsPerTick, idle);
      ticks := ticks + Slept(idle, countsPerTick, countedToZero, remaining);
      if idleTime >= 1 {
        MaxIdleCovers(countsPerTick);
        if cvr <= countsPerTick {
          ReloadFits(cvr, countsPerTick, idle);
          if remaining <= reload {
            SleptAtMostIdle(idle, countsPerTick, countedToZero, remaining);
          }
        }
      }
    }

    /** One pass of `run` over the list: each armed task whose time has come
        is executed, and the deadline is the least due time of the tasks
        still armed after their visit, capped at `ms() + m_max_idle_time`.
        The successor is read before the task is executed, so a task that
        re-arms itself (and so moves to the tail) is visited again. `effect`
        says what each task's callback does to its own task. A pass can
        visit tasks forever, so it is given a visit budget; `cursor` is
        the task it stopped at, or null when it reached the end of the list.
        The trace records the visits: each starts from the arming the task
        had then, every task ends with the arming its last visit left, a
        task never executed keeps its arming, and a pass that reached the
        end of the list executed every task that was armed and due when it
        began and returns a deadline no later than any armed task's. */
    method Pass(effect: Task -> SelfEffect, fuel: nat)
        returns (deadline: int, cursor: Task?, ghost trace: seq<Visit>, ghost init: map<Task, Timing>, ghost cap: int)
      requires Valid()
      modifies this`first, this`last, this`tasks, this`changed, all
      ensures Valid() && all == old(all)
      ensures Chained(old(first), trace, cursor)
      ensures |trace| <= fuel && (cursor != null ==> |trace| == fuel)
      ensures forall i :: 0 <= i < |trace| ==> Follows(trace[i], Ms(), effect)
      ensures Ms() == old(Ms())
      ensures cap == old(Ms()) + maxIdle && deadline == Deadline(cap, trace) && deadline <= cap
      ensures forall t :: t in all ==> t in init && init[t] == old(t.Arming())
      ensures Tied(trace, init)
      ensures forall t :: t in all ==> t.Arming() == Replayed(t, trace, init[t])
      ensures forall t :: t in all && !Ran(trace, t) ==> t.Arming() == old(t.Arming())
      ensures cursor == null ==> forall t :: t in old(tasks) && old(t.nextRun) <= Ms() ==> Ran(trace, t)
      ensures cursor == null ==> forall t :: t in tasks ==> deadline <= t.nextRun
    {
      ghost var now, head := ticks, first;
      deadline := ticks + maxIdle;
      cap := deadline;
      init := Armings();
      ghost var due := set t | t in tasks && t.nextRun <= now;
      ghost var done, rest;
      cursor, deadline, trace, done, rest := Walk(effect, fuel, head, now, cap, init, due, deadline);
      DeadlineAtMostCap(cap, trace);
    }

    /** The inner loop of `run`, from the head of the list, for at most
        `fuel` visits. */
    method Walk(effect: Task -> SelfEffect, fuel: nat, ghost head: Task?, ghost now: int, ghost cap: int,
                ghost init: map<Task, Timing>, ghost due: set<Task>, start: int)
        returns (cursor: Task?, deadline: int, ghost trace: seq<Visit>, ghost done: seq<Task>, ghost rest: seq<Task>)
      requires InPass(head, [], first, now, effect, cap, start, init, [], tasks, due) && head == first
      modifies this`first, this`last, this`tasks, this`changed, all
      ensures InPass(head, trace, cursor, now, effect, cap, deadline, init, done, rest, due)
      ensures |trace| <= fuel && (cursor != null ==> |trace| == fuel)
      ensures all == old(all) && maxIdle == old(maxIdle)
    {
      cursor, deadline, trace, done, rest := first, start, [], [], tasks;
      var budget: nat := fuel;
      while cursor != null && budget > 0
        invariant InPass(head, trace, cursor, now, effect, cap, deadline, init, done, rest, due)
        invariant budget + |trace| == fuel && all == old(all) && maxIdle == old(maxIdle)
        decreases budget
      {
        ghost var v;
        cursor, deadline, v, done, rest := Advance(cursor, effect, deadline, head, trace, now, cap, init, done, rest, due);
        trace := trace + [v];
        budget := budget - 1;
      }
    }

    /** Where a pass stands at `task`: the visits so far follow each other
        from `head`, each obeys the rule of a visit and starts from the
        arming its task had then, and `deadline` is what they give; the list
        is the settled part `done` (every task there due no earlier than the
        deadline) followed by the part `rest` from `task` on; every task's
        arming is what its last visit left; and every task of `due` (armed
        and due when the pass began) is either still ahead or was executed. */
    ghost predicate InPass(head: Task?, trace: seq<Visit>, task: Task?, now: int, effect: Task -> SelfEffect, cap: int,
                           deadline: int, init: map<Task, Timing>, done: seq<Task>, rest: seq<Task>, due: set<Task>)
      reads this, all
    {
      && Valid() && ticks == now
      && Progress(head, trace, task, now, effect, cap, deadline)
      && tasks == done + rest && (task == null <==> rest == []) && (rest != [] ==> rest[0] == task)
      && (forall t :: t in done ==> deadline <= t.nextRun)
      && Tied(trace, init)
      && (forall t :: t in all ==> t in init && t.Arming() == Replayed(t, trace, init[t]))
      && (forall t :: t in all && !Ran(trace, t) ==> t.Arming() == init[t])
      && (forall t :: t in due ==> t in init && init[t].nextRun <= now && (t in rest || Ran(trace, t)))
    }

    /** One visit of the pass, with its bookkeeping: the pass goes on from
        the successor with one more visit in its trace. */
    method Advance(task: Task?, effect: Task -> SelfEffect, deadline: int, ghost head: Task?, ghost trace: seq<Visit>,
                   ghost now: int, ghost cap: int, ghost init: map<Task, Timing>, ghost done: seq<Task>,
                   ghost rest: seq<Task>, ghost due: set<Task>)
        returns (succ: Task?, d: int, ghost v: Visit, ghost done': seq<Task>, ghost rest': seq<Task>)
      requires InPass(head, trace, task, now, effect, cap, deadline, init, done, rest, due) && task != null
      modifies this`first, this`last, this`tasks, this`changed, task, all`prev, all`next
      ensures InPass(head, trace + [v], succ, now, effect, cap, d, init, done', rest', due)
      ensures all == old(all) && maxIdle == old(maxIdle)
    {
      succ, d, v, done', rest' := VisitTask(task, effect, deadline, done, rest);
      ExtendTrace(head, trace, v, now, effect, cap, deadline);
      TiedExtend(trace, v, init);
      forall t | t in due || t in all
        ensures Ran(trace + [v], t) <==> Ran(trace, t) || (v.task == t && v.executed)
      {
        RanExtend(trace, v, t);
      }
      assert (trace + [v])[..|trace|] == trace;
      forall t | t in all
        ensures t.Arming() == Replayed(t, trace + [v], init[t])
      {
      }
    }

    /** One turn of the outer loop of `run`: a pass, then, if the change
        counter did not move, a single `wfi` or an `idleFor` until the
        deadline. The SysTick readings `idleFor` takes are parameters. A pass
        that used up its visit budget is followed by no wait. The loop never
        waits past the due time of a task left armed, waits only after a
        pass that executed every task armed and due when it began, and
        waking from `idleFor` never puts the clock past the deadline. */
    method Iteration(effect: Task -> SelfEffect, fuel: nat, cvr: uint32, countedToZero: bool, remaining: uint32)
        returns (choice: Idle, ghost trace: seq<Visit>)
      requires Valid() && Configured()
      modifies this`first, this`last, this`tasks, this`changed, this`ticks, all
      ensures Valid() && all == old(all)
      ensures forall i :: 0 <= i < |trace| ==> Follows(trace[i], old(Ms()), effect)
      ensures forall t :: t in all && !Ran(trace, t) ==> t.Arming() == old(t.Arming())
      ensures !choice.Busy? ==> changed == old(changed)
      ensures !choice.Busy? ==> forall t :: t in old(tasks) && old(t.nextRun) <= old(Ms()) ==> Ran(trace, t)
      ensures choice.WaitOne? ==> forall t :: t in tasks ==> old(Ms()) + 1 <= t.nextRun
      ensures choice.Sleep? ==> 2 <= choice.ms <= maxIdle
      ensures choice.Sleep? ==> forall t :: t in tasks ==> old(Ms()) + choice.ms <= t.nextRun
      ensures !choice.Sleep? ==> Ms() == old(Ms())
      ensures choice.Sleep? ==> Ms() == old(Ms()) + Slept(choice.ms, countsPerTick, countedToZero, remaining)
      ensures choice.Sleep? && cvr <= countsPerTick && remaining <= Reload(cvr, countsPerTick, choice.ms) ==>
        Ms() <= old(Ms()) + choice.ms
    {
      var changedBefore := changed;
      ghost var start := ticks;
      var deadline, cursor;
      ghost var init, cap;
      deadline, cursor, trace, init, cap := Pass(effect, fuel);
      choice := Wait(changedBefore, deadline, cursor == null, cvr, countedToZero, remaining);
    }

    /** The waiting part of a turn of `run`: the idle decision after a pass
        that `finished` (reached the end of the list) with `deadline` at most
        `m_max_idle_time` away, then the wait. A sleep lasts exactly until
        the deadline, so it ends no later than any due time the deadline
        bounds. */
    method Wait(changedBefore: uint32, deadline: int, finished: bool, cvr: uint32, countedToZero: bool, remaining: uint32)
        returns (choice: Idle)
      requires Configured() && deadline <= Ms() + maxIdle
      modifies this`ticks
      ensures choice == if finished then IdleChoice(changedBefore, changed, deadline, old(Ms())) else Busy
      ensures choice.Sleep? ==> choice.ms == deadline - old(Ms()) && 2 <= choice.ms <= maxIdle
      ensures choice.Sleep? ==> Ms() == old(Ms()) + Slept(choice.ms, countsPerTick, countedToZero, remaining)
      ensures choice.Sleep? && cvr <= countsPerTick && remaining <= Reload(cvr, countsPerTick, choice.ms) ==>
        Ms() <= deadline
      ensures !choice.Sleep? ==> Ms() == old(Ms())
    {
      choice := if finished then IdleChoice(changedBefore, changed, deadline, ticks) else Busy;
      if choice.Sleep? {
        SleepRequestExact(changedBefore, changed, deadline, ticks, maxIdle);
        var _ := IdleFor(choice.ms, cvr, countedToZero, remaining);
      }
    }

    /** One turn of the inner loop of `run`: the successor is read, the task
        is executed if it is armed and due, and if it is still armed its due
        time lowers the deadline. `done` is the part of the list the pass
        has settled (each task there due no earlier than the deadline) and
        `rest` the part from the task on; the visit settles the task, drops
        it (cancelled), or moves it behind the rest (re-armed). Only the
        task's own fields and the links of the list change. */
    method VisitTask(task: Task, effect: Task -> SelfEffect, deadline: int, ghost done: seq<Task>, ghost rest: seq<Task>)
        returns (succ: Task?, d: int, ghost v: Visit, ghost done': seq<Task>, ghost rest': seq<Task>)
      requires Valid() && tasks == done + rest && rest != [] && rest[0] == task
      requires forall t :: t in done ==> deadline <= t.nextRun
      modifies this`first, this`last, this`tasks, this`changed, task, all`prev, all`next
      ensures Valid() && all == old(all) && maxIdle == old(maxIdle) && Ms() == old(Ms())
      ensures v.task == task && v.succ == succ && succ == old(task.next)
      ensures v.hasCallback == (old(task.callback) != NULL)
      ensures v.before == old(task.Arming()) && v.after == task.Arming() && Follows(v, Ms(), effect)
      ensures d == if Pending(v) && v.after.nextRun < deadline then v.after.nextRun else deadline
      ensures tasks == done' + rest' && (succ == null <==> rest' == []) && (rest' != [] ==> rest'[0] == succ)
      ensures forall t :: t in done' ==> d <= t.nextRun
      ensures forall t :: t in rest[1..] ==> t in rest'
      ensures forall t :: t in all && t != task ==> t.Arming() == old(t.Arming())
    {
      LinkedAt(tasks, |done|);
      forall j | 0 <= j < |done|
        ensures done[j] != task
      {
        assert (done + rest)[j] == done[j] && (done + rest)[|done|] == task;
      }
      succ := task.next;
      ghost var before := task.Arming();
      ghost var hasCallback := task.callback != NULL;
      ghost var executed;
      d, executed := ExecIfDue(task, effect, deadline);
      v := Visit(task, succ, hasCallback, before, executed, task.Arming());
      done', rest' := Resplit(done, rest, executed, task.enabled);
    }

    /** The body of the inner loop once the successor is read: an armed task
        that is due is executed, and a task armed after that lowers the
        deadline to its due time. Nothing but the task, the list and its
        links changes. */
    method ExecIfDue(task: Task, effect: Task -> SelfEffect, deadline: int) returns (d: int, ghost executed: bool)
      requires Valid() && task in tasks
      modifies this`first, this`last, this`tasks, this`changed, task, all`prev, all`next
      ensures Valid() && Ms() == old(Ms())
      ensures executed == (old(task.enabled) && Ms() >= old(task.nextRun))
      ensures task.Arming() ==
        if executed then AfterExec(old(task.Arming()), Ms(), old(task.callback) != NULL, effect(task)) else old(task.Arming())
      ensures tasks == if !executed then old(tasks)
        else if task.enabled then Without(old(tasks), task) + [task] else Without(old(tasks), task)
      ensures d == if task.enabled && task.nextRun < deadline then task.nextRun else deadline
      ensures forall t :: t in all && t != task ==> t.Arming() == old(t.Arming())
    {
      executed := false;
      d := deadline;
      if task.enabled {
        if ticks >= task.nextRun {
          task.Exec(this, effect(task));
          executed := true;
        }
        if task.enabled {
          d := if task.nextRun < d then task.nextRun else d;
        }
      }
    }
  }
}
