/** The round-robin scheduler: one turn of the task list, reaping zombies on the way. */
module Scheduling {
  import opened Basics
  import opened LinkedList

  // ---- What one call of schedule does to the list ----

  /** The list from its first task that is not a zombie on. */
  function SkipZombies(s: seq<int>, z: set<int>): seq<int>
  {
    if s != [] && s[0] in z then SkipZombies(s[1..], z) else s
  }

  /** The tasks left: zombies between the current task and the next one picked are gone. */
  function PickTasks(tasks: seq<int>, i: nat, z: set<int>): seq<int>
    requires i < |tasks|
  {
    var after := SkipZombies(tasks[i + 1..], z);
    if after != [] then tasks[..i + 1] + after else SkipZombies(tasks[..i + 1], z)
  }

  /** Where the picked task is in the list that is left. */
  function PickIndex(tasks: seq<int>, i: nat, z: set<int>): nat
    requires i < |tasks|
  {
    if SkipZombies(tasks[i + 1..], z) != [] then i + 1 else 0
  }

  lemma {:induction false} SkipIsSuffix(s: seq<int>, z: set<int>)
    ensures |SkipZombies(s, z)| <= |s| && SkipZombies(s, z) == s[|s| - |SkipZombies(s, z)|..]
    ensures forall k :: 0 <= k < |s| - |SkipZombies(s, z)| ==> s[k] in z
    ensures SkipZombies(s, z) != [] ==> SkipZombies(s, z)[0] !in z
  {
    if s != [] && s[0] in z {
      SkipIsSuffix(s[1..], z);
      var r := SkipZombies(s[1..], z);
      assert r == s[1..][|s| - 1 - |r|..] == s[|s| - |r|..];
    }
  }

  /**
    Round robin, around the end of the list: the task picked is the first behind the current one that
    is no zombie. Exactly the zombies between the two are gone, and the others keep their order.
   */
  lemma RoundRobin(tasks: seq<int>, i: nat, z: set<int>) returns (d: nat)
    requires i < |tasks| && exists k :: 0 <= k < |tasks| && tasks[k] !in z
    ensures 0 < d <= |tasks| && tasks[Around(|tasks|, i, d)] !in z
    ensures forall m :: 0 < m < d ==> tasks[Around(|tasks|, i, m)] in z
    ensures PickTasks(tasks, i, z) == Rest(tasks, i, d)
    ensures PickIndex(tasks, i, z) == if i + d < |tasks| then i + 1 else 0
    ensures var at := PickIndex(tasks, i, z);
      at < |Rest(tasks, i, d)| && Rest(tasks, i, d)[at] == tasks[Around(|tasks|, i, d)]
  {
    var n, rest, front := |tasks|, tasks[i + 1..], tasks[..i + 1];
    SkipIsSuffix(rest, z);
    SkipIsSuffix(front, z);
    var after, skipped := SkipZombies(rest, z), SkipZombies(front, z);
    if after != [] {
      d := 1 + |rest| - |after|;
      forall m | 0 < m < d
        ensures tasks[Around(n, i, m)] in z
      {
        assert tasks[i + m] == rest[m - 1];
      }
      assert after == tasks[i + d..] && after[0] == tasks[i + d];
    } else {
      SomeoneLeft(tasks, i, z);
      d := n - i + |front| - |skipped|;
      forall m | 0 < m < d
        ensures tasks[Around(n, i, m)] in z
      {
        if i + m < n {
          assert tasks[i + m] == rest[m - 1];
        } else {
          assert tasks[i + m - n] == front[i + m - n];
        }
      }
      assert skipped == tasks[i + d - n..i + 1];
    }
  }

  /** The index `d` places behind `i`, around the end of the list. */
  function Around(n: nat, i: nat, d: nat): (k: nat)
    requires i < n && d <= n
    ensures k < n
  {
    if i + d < n then i + d else i + d - n
  }

  /** The list without the d - 1 tasks behind index `i`, around the end. */
  function Rest(tasks: seq<int>, i: nat, d: nat): seq<int>
    requires i < |tasks| && 0 < d <= |tasks|
  {
    if i + d < |tasks| then tasks[..i + 1] + tasks[i + d..] else tasks[i + d - |tasks|..i + 1]
  }

  lemma SomeoneLeft(tasks: seq<int>, i: nat, z: set<int>)
    requires i < |tasks| && exists k :: 0 <= k < |tasks| && tasks[k] !in z
    ensures SkipZombies(tasks[i + 1..], z) != [] || SkipZombies(tasks[..i + 1], z) != []
  {
    var rest, front := tasks[i + 1..], tasks[..i + 1];
    SkipIsSuffix(rest, z);
    SkipIsSuffix(front, z);
    var k :| 0 <= k < |tasks| && tasks[k] !in z;
    if k > i {
      assert rest[k - i - 1] == tasks[k];
    } else {
      assert front[k] == tasks[k];
    }
  }

  // ---- Bounded waiting ----

  /** The list, the current task's index, the zombies and the next task number. */
  datatype View = View(tasks: seq<int>, i: nat, z: set<int>, next: int)

  ghost predicate Proper(v: View)
  {
    v.i < |v.tasks| && Distinct(v.tasks) && forall k :: 0 <= k < |v.tasks| ==> v.tasks[k] < v.next
  }

  function Picked(v: View): int
    requires v.i < |v.tasks|
  {
    v.tasks[v.i]
  }

  /** Calls of schedule, by itself or from task_create or task_exit. */
  datatype Event = Tick | Create | Exit

  function Pick(tasks: seq<int>, i: nat, z: set<int>, next: int): View
    requires i < |tasks|
  {
    View(PickTasks(tasks, i, z), PickIndex(tasks, i, z), z, next)
  }

  ghost function Next(v: View, e: Event): View
    requires Proper(v)
  {
    match e
    case Tick => Pick(v.tasks, v.i, v.z, v.next)
    case Create => Pick([v.next] + v.tasks, v.i + 1, v.z - {v.next}, v.next + 1)
    case Exit => Pick(v.tasks, v.i, v.z + {Picked(v)}, v.next)
  }

  /** Task `t`, at index `j`, waits behind the current task. */
  ghost predicate Waits(v: View, t: int, j: nat)
  {
    Proper(v) && j < |v.tasks| && v.tasks[j] == t && j != v.i && t !in v.z
  }

  /** Upper bound on the calls until index `j` is reached. */
  function Rank(n: nat, i: nat, j: nat): int
  {
    if j > i then j - i else 2 * (n - i) + j
  }

  lemma RankBound(n: nat, i: nat, j: nat)
    requires i < n && j < n && i != j
    ensures 0 < Rank(n, i, j) <= 2 * n - 2
  {
  }

  /** One pick either reaches the waiting task or brings it nearer by what an insertion can cost, and one more. */
  lemma PickApproaches(tasks: seq<int>, i: nat, z: set<int>, j: nat) returns (j': nat)
    requires i < |tasks| && j < |tasks| && j != i && tasks[j] !in z
    ensures var tasks', i' := PickTasks(tasks, i, z), PickIndex(tasks, i, z);
      && i' < |tasks'| && j' < |tasks'| && tasks'[j'] == tasks[j]
      && (i' == j' || Rank(|tasks'|, i', j') <= Rank(|tasks|, i, j) - if j > i then 1 else 2)
  {
    hide SkipZombies;
    var rest, front := tasks[i + 1..], tasks[..i + 1];
    var after := SkipZombies(rest, z);
    SkipIsSuffix(rest, z);
    SkipIsSuffix(front, z);
    if j > i {
      assert rest[j - i - 1] == tasks[j];
      j' := j - (|rest| - |after|);
    } else if after != [] {
      j' := j;
    } else {
      assert front[j] == tasks[j];
      j' := j - (|front| - |SkipZombies(front, z)|);
    }
  }

  /** What is left of the list after a pick was in it before; what is gone is a zombie. */
  lemma PickKeeps(tasks: seq<int>, i: nat, z: set<int>, t: int)
    requires i < |tasks|
    ensures t in PickTasks(tasks, i, z) ==> t in tasks
    ensures t in tasks && t !in PickTasks(tasks, i, z) ==> t in z
  {
    var rest, front := tasks[i + 1..], tasks[..i + 1];
    SkipIsSuffix(rest, z);
    SkipIsSuffix(front, z);
    assert tasks == front + rest;
    var after := SkipZombies(rest, z);
    Dropped(rest, |rest| - |after|, z, t);
    Dropped(front, |front| - |SkipZombies(front, z)|, z, t);
  }

  lemma Dropped(s: seq<int>, k: nat, z: set<int>, t: int)
    requires k <= |s| && forall j :: 0 <= j < k ==> s[j] in z
    ensures t in s[k..] ==> t in s
    ensures t in s && t !in s[k..] ==> t in z
  {
    if t in s {
      var j :| 0 <= j < |s| && s[j] == t;
      if j >= k {
        assert s[k..][j - k] == t;
      }
    }
  }

  /** Whatever the call comes from: a task leaves the list as a zombie only. */
  lemma LeavesAsZombie(v: View, e: Event, t: int)
    requires Proper(v) && (t in v.tasks || (e.Create? && t == v.next))
    ensures t in Next(v, e).tasks || t in Next(v, e).z
  {
    match e
    case Tick => PickKeeps(v.tasks, v.i, v.z, t);
    case Exit => PickKeeps(v.tasks, v.i, v.z + {Picked(v)}, t);
    case Create =>
      var tasks := [v.next] + v.tasks;
      assert t in tasks;
      PickKeeps(tasks, v.i + 1, v.z - {v.next}, t);
  }

  /** Whatever the call comes from, the waiting task is picked or strictly nearer. */
  lemma NextApproaches(v: View, e: Event, t: int, j: nat) returns (j': nat)
    requires Waits(v, t, j)
    ensures var w := Next(v, e);
      && w.i < |w.tasks| && j' < |w.tasks| && w.tasks[j'] == t && t !in w.z
      && (w.i == j' || Rank(|w.tasks|, w.i, j') < Rank(|v.tasks|, v.i, j))
  {
    hide PickTasks, PickIndex;
    match e
    case Tick =>
      j' := PickApproaches(v.tasks, v.i, v.z, j);
    case Exit =>
      j' := PickApproaches(v.tasks, v.i, v.z + {v.tasks[v.i]}, j);
    case Create =>
      var tasks := [v.next] + v.tasks;
      assert tasks[j + 1] == t && tasks[v.i + 1] == v.tasks[v.i];
      j' := PickApproaches(tasks, v.i + 1, v.z - {v.next}, j + 1);
  }

  /** Each event leads from one view to the next. */
  ghost predicate IsRun(views: seq<View>, es: seq<Event>)
  {
    && |views| == |es| + 1
    && (forall k :: 0 <= k < |views| ==> Proper(views[k]))
    && forall k :: 0 <= k < |es| ==> views[k + 1] == Next(views[k], es[k])
  }

  lemma RunProper(views: seq<View>, es: seq<Event>, k: nat)
    requires IsRun(views, es) && k <= |es|
    ensures |views| == |es| + 1 && Proper(views[k])
  {
  }

  /** The rest of a run is a run. */
  lemma RunFrom(views: seq<View>, es: seq<Event>, k: nat)
    requires IsRun(views, es) && k <= |es|
    ensures IsRun(views[k..], es[k..])
  {
    hide Proper, Next;
    var vs, fs := views[k..], es[k..];
    forall m | 0 <= m < |fs|
      ensures Proper(vs[m]) && vs[m + 1] == Next(vs[m], fs[m])
    {
      assert vs[m] == views[k + m] && vs[m + 1] == views[k + m + 1] && fs[m] == es[k + m];
    }
  }

  lemma RunMore(views: seq<View>, es: seq<Event>, e: Event, w: View)
    requires IsRun(views, es) && Proper(w) && w == Next(views[|es|], e)
    ensures IsRun(views + [w], es + [e])
  {
    hide Proper, Next;
    var vs, fs := views + [w], es + [e];
    forall k | 0 <= k < |fs|
      ensures Proper(vs[k]) && vs[k + 1] == Next(vs[k], fs[k])
    {
      assert vs[k] == views[k];
      if k < |es| {
        assert vs[k + 1] == views[k + 1] && fs[k] == es[k];
      }
    }
  }

  /** A waiting task is picked within as many calls as its rank. */
  lemma {:induction false} WaitsRank(views: seq<View>, es: seq<Event>, t: int, j: nat) returns (k: nat)
    requires IsRun(views, es) && Waits(views[0], t, j) && |es| >= Rank(|views[0].tasks|, views[0].i, j)
    ensures 0 < k <= Rank(|views[0].tasks|, views[0].i, j) && k < |views| && Picked(views[k]) == t
    decreases |es|
  {
    hide Next, Distinct;
    var v := views[0];
    RankBound(|v.tasks|, v.i, j);
    var w := views[1];
    var j' := NextApproaches(v, es[0], t, j);
    assert w == Next(v, es[0]);
    if w.i == j' {
      k := 1;
    } else {
      RankBound(|w.tasks|, w.i, j');
      RunFrom(views, es, 1);
      k := WaitsRank(views[1..], es[1..], t, j');
      k := k + 1;
    }
  }

  /** From a list of n tasks any ready task other than the current one is picked within 2n - 2 calls. */
  lemma BoundedWaiting(views: seq<View>, es: seq<Event>, t: int) returns (k: nat)
    requires IsRun(views, es) && t in views[0].tasks && t != Picked(views[0]) && t !in views[0].z
    requires |es| >= 2 * |views[0].tasks| - 2
    ensures 0 < k <= 2 * |views[0].tasks| - 2 && k < |views| && Picked(views[k]) == t
  {
    var v := views[0];
    var j :| 0 <= j < |v.tasks| && v.tasks[j] == t;
    RankBound(|v.tasks|, v.i, j);
    k := WaitsRank(views, es, t, j);
  }

  // ---- Zombies ----

  /** The idle task is listed and ready. */
  ghost predicate Idle(v: View)
  {
    0 in v.tasks && 0 !in v.z
  }

  /** Zombies stay zombies, and only an exit makes one, of the current task; only task_create lists a task. */
  lemma NextZombies(v: View, e: Event, t: int)
    requires Proper(v) && t < v.next
    ensures t in Next(v, e).z <==> t in v.z || (e.Exit? && t == Picked(v))
    ensures Next(v, e).next == v.next + (if e.Create? then 1 else 0)
    ensures t in Next(v, e).tasks ==> t in v.tasks
  {
    match e
    case Tick => PickKeeps(v.tasks, v.i, v.z, t);
    case Exit => PickKeeps(v.tasks, v.i, v.z + {Picked(v)}, t);
    case Create => PickKeeps([v.next] + v.tasks, v.i + 1, v.z - {v.next}, t);
  }

  /** A task that is created is ready and in front of the list, whoever is picked. */
  lemma NextCreates(v: View)
    requires Proper(v)
    ensures var w := Next(v, Create);
      w.tasks != [] && w.tasks[0] == v.next && v.next in w.tasks && v.next !in w.z
  {
    var tasks, i, z := Turn(v, Create);
    assert tasks[0] == v.next;
    var d := RoundRobin(tasks, i, z);
    assert Around(|tasks|, i, |tasks| - i) == 0;
  }

  /** The current task is never a zombie, as the idle task never exits. */
  lemma NextAlive(v: View, e: Event)
    requires Proper(v) && Idle(v) && (e.Exit? ==> Picked(v) != 0)
    ensures var w := Next(v, e); Idle(w) && w.i < |w.tasks| && Picked(w) !in w.z
  {
    var k :| 0 <= k < |v.tasks| && v.tasks[k] == 0;
    var tasks, i, z := Turn(v, e);
    assert tasks[if e.Create? then k + 1 else k] == 0;
    PickKeeps(tasks, i, z, 0);
    var d := RoundRobin(tasks, i, z);
  }

  /** What the pick of an event starts from. */
  lemma Turn(v: View, e: Event) returns (tasks: seq<int>, i: nat, z: set<int>)
    requires Proper(v)
    ensures i < |tasks| && Next(v, e) == Pick(tasks, i, z, Next(v, e).next)
    ensures tasks == if e.Create? then [v.next] + v.tasks else v.tasks
    ensures i == if e.Create? then v.i + 1 else v.i
    ensures z == if e.Create? then v.z - {v.next} else if e.Exit? then v.z + {Picked(v)} else v.z
    ensures Distinct(tasks) && tasks[i] == Picked(v)
  {
    tasks := if e.Create? then [v.next] + v.tasks else v.tasks;
    i := if e.Create? then v.i + 1 else v.i;
    z := if e.Create? then v.z - {v.next} else if e.Exit? then v.z + {Picked(v)} else v.z;
  }

  lemma Apart(tasks: seq<int>, a: nat, b: nat, j: nat)
    requires a <= b <= |tasks| && j < |tasks| && Distinct(tasks)
    ensures tasks[j] in tasks[a..b] <==> a <= j < b
  {
    if a <= j < b {
      assert tasks[a..b][j - a] == tasks[j];
    }
  }

  /** Where index `j` is in the list without the d - 1 tasks behind index `i`, if it is in it. */
  lemma RestIndex(tasks: seq<int>, i: nat, d: nat, j: nat) returns (j': nat)
    requires i < |tasks| && 0 < d <= |tasks| && j < |tasks| && j != i && Distinct(tasks)
    requires d < |tasks| ==> j != Around(|tasks|, i, d)
    ensures var tasks', i' := Rest(tasks, i, d), if i + d < |tasks| then i + 1 else 0;
      && i' < |tasks'|
      && (tasks[j] in tasks' ==>
            && j' < |tasks'| && tasks'[j'] == tasks[j] && j' != i'
            && Rank(|tasks'|, i', j') <= Rank(|tasks|, i, j) - if j > i then 1 else 2)
  {
    hide Distinct;
    var n := |tasks|;
    if i + d < n {
      Apart(tasks, 0, i + 1, j);
      Apart(tasks, i + d, n, j);
      j' := if j < i + d then j else j - d + 1;
      assert tasks[..i + 1] == tasks[0..i + 1] && tasks[i + d..] == tasks[i + d..n];
    } else {
      Apart(tasks, i + d - n, i + 1, j);
      j' := if i + d - n <= j then j - (i + d - n) else 0;
    }
  }

  /** One pick drops the zombie or brings it nearer, as it would a waiting task. */
  lemma PickDrops(tasks: seq<int>, i: nat, z: set<int>, j: nat) returns (j': nat)
    requires i < |tasks| && j < |tasks| && j != i && tasks[j] in z && Distinct(tasks)
    requires exists k :: 0 <= k < |tasks| && tasks[k] !in z
    ensures var tasks', i' := PickTasks(tasks, i, z), PickIndex(tasks, i, z);
      && i' < |tasks'|
      && (tasks[j] in tasks' ==>
            && j' < |tasks'| && tasks'[j'] == tasks[j] && j' != i'
            && Rank(|tasks'|, i', j') <= Rank(|tasks|, i, j) - if j > i then 1 else 2)
  {
    hide PickTasks, PickIndex, Distinct, Rest, Rank;
    var d := RoundRobin(tasks, i, z);
    j' := RestIndex(tasks, i, d, j);
  }

  /** Whatever the call comes from, a zombie other than the current task leaves the list or gets nearer to it. */
  lemma NextDrops(v: View, e: Event, t: int, j: nat) returns (j': nat)
    requires Proper(v) && Idle(v) && (e.Exit? ==> Picked(v) != 0)
    requires j < |v.tasks| && v.tasks[j] == t && j != v.i && t in v.z
    ensures var w := Next(v, e);
      && w.i < |w.tasks|
      && (t in w.tasks ==> j' < |w.tasks| && w.tasks[j'] == t && j' != w.i
                           && Rank(|w.tasks|, w.i, j') < Rank(|v.tasks|, v.i, j))
  {
    hide PickTasks, PickIndex;
    var k :| 0 <= k < |v.tasks| && v.tasks[k] == 0;
    var tasks, i, z := Turn(v, e);
    assert tasks[if e.Create? then k + 1 else k] == 0;
    j' := PickDrops(tasks, i, z, if e.Create? then j + 1 else j);
  }

  /** The idle task never exits. */
  ghost predicate Spared(views: seq<View>, es: seq<Event>)
    requires IsRun(views, es)
  {
    Idle(views[0]) && forall k :: 0 <= k < |es| && es[k].Exit? ==> Picked(views[k]) != 0
  }

  lemma {:induction false} RunAlive(views: seq<View>, es: seq<Event>, m: nat)
    requires IsRun(views, es) && Spared(views, es) && m < |views|
    ensures Idle(views[m]) && Proper(views[m]) && (m > 0 ==> Picked(views[m]) !in views[m].z)
    decreases m
  {
    hide Next, Distinct;
    if m > 0 {
      RunAlive(views, es, m - 1);
      assert views[m - 1 + 1] == Next(views[m - 1], es[m - 1]);
      NextAlive(views[m - 1], es[m - 1]);
    }
  }

  lemma SparedFrom(views: seq<View>, es: seq<Event>, k: nat)
    requires IsRun(views, es) && Spared(views, es) && k <= |es|
    ensures IsRun(views[k..], es[k..]) && Spared(views[k..], es[k..])
  {
    hide IsRun, Idle;
    RunProper(views, es, k);
    RunFrom(views, es, k);
    RunAlive(views, es, k);
    var vs, fs := views[k..], es[k..];
    forall m | 0 <= m < |fs| && fs[m].Exit?
      ensures vs[m].i < |vs[m].tasks| && Picked(vs[m]) != 0
    {
      RunProper(views, es, k + m);
      assert vs[m] == views[k + m] && fs[m] == es[k + m];
    }
  }

  /** A zombie other than the current task is never made current again. */
  lemma {:induction false} NeverPicked(views: seq<View>, es: seq<Event>, t: int, m: nat)
    requires IsRun(views, es) && Spared(views, es) && m < |views|
    requires t < views[0].next && t in views[0].z && t != Picked(views[0])
    ensures t < views[m].next && t in views[m].z && t != Picked(views[m])
    decreases m
  {
    hide Next, Distinct, Idle;
    if m > 0 {
      NeverPicked(views, es, t, m - 1);
      RunAlive(views, es, m);
      assert views[m - 1 + 1] == Next(views[m - 1], es[m - 1]);
      NextZombies(views[m - 1], es[m - 1], t);
    }
  }

  /** A task that is not listed and has been created is never listed again. */
  lemma {:induction false} StaysGone(views: seq<View>, es: seq<Event>, t: int, m: nat)
    requires IsRun(views, es) && m < |views| && t < views[0].next && t !in views[0].tasks
    ensures t < views[m].next && t !in views[m].tasks
    decreases m
  {
    hide Next, Distinct;
    if m > 0 {
      StaysGone(views, es, t, m - 1);
      assert views[m - 1 + 1] == Next(views[m - 1], es[m - 1]);
      NextZombies(views[m - 1], es[m - 1], t);
    }
  }

  /** A zombie has left the list after as many calls as its rank. */
  lemma {:induction false} LeavesByRank(views: seq<View>, es: seq<Event>, t: int, j: nat, m: nat)
    requires IsRun(views, es) && Spared(views, es) && m < |views|
    requires var v := views[0];
      && j < |v.tasks| && v.tasks[j] == t && j != v.i && t in v.z
      && m >= Rank(|v.tasks|, v.i, j)
    ensures t !in views[m].tasks
    decreases m
  {
    hide Next, Distinct;
    var v, w := views[0], views[1];
    RankBound(|v.tasks|, v.i, j);
    var j' := NextDrops(v, es[0], t, j);
    assert w == Next(v, es[0]);
    NextZombies(v, es[0], t);
    SparedFrom(views, es, 1);
    if t in w.tasks {
      RankBound(|w.tasks|, w.i, j');
      LeavesByRank(views[1..], es[1..], t, j', m - 1);
    } else {
      StaysGone(views[1..], es[1..], t, m - 1);
    }
  }

  /** In a list of n tasks a zombie other than the current one is gone after 2n - 2 calls, and for good. */
  lemma ZombieLeaves(views: seq<View>, es: seq<Event>, t: int, m: nat)
    requires IsRun(views, es) && Spared(views, es) && m < |views|
    requires t < views[0].next && t in views[0].z && t != Picked(views[0])
    requires m >= 2 * |views[0].tasks| - 2
    ensures t !in views[m].tasks
  {
    hide Next, Distinct;
    var v := views[0];
    if t in v.tasks {
      var j :| 0 <= j < |v.tasks| && v.tasks[j] == t;
      RankBound(|v.tasks|, v.i, j);
      LeavesByRank(views, es, t, j, m);
    } else {
      StaysGone(views, es, t, m);
    }
  }

  // ---- Usage accounting ----

  function UsageOf(usage: map<int, int>, t: int): int
  {
    if t in usage then usage[t] else 0
  }

  /** The time used by the tasks 0 to n - 1. */
  function Total(n: int, usage: map<int, int>): int
    decreases n
  {
    if n <= 0 then 0 else Total(n - 1, usage) + UsageOf(usage, n - 1)
  }

  /** The time since the last switch goes to one task. */
  function Spent(usage: map<int, int>, t: int, prev: int, ticks: int): map<int, int>
  {
    usage[t := (UsageOf(usage, t) + (ticks - prev) % UINT32) % UINT32]
  }

  lemma {:induction false} TotalUpdate(n: int, usage: map<int, int>, t: int, v: int)
    ensures Total(n, usage[t := v]) == Total(n, usage) + if 0 <= t < n then v - UsageOf(usage, t) else 0
    decreases n
  {
    if n > 0 {
      TotalUpdate(n - 1, usage, t, v);
    }
  }

  /** The index after `i`, around the end of the list. */
  function After(n: nat, i: nat): nat
    requires i < n
  {
    if i + 1 == n then 0 else i + 1
  }

  /** A zombie on the way to the next task leaves the list; what is picked in the end stays the same. */
  lemma DropZombie(tasks: seq<int>, i: nat, z: set<int>)
    requires i < |tasks| && tasks[After(|tasks|, i)] in z && After(|tasks|, i) != i
    ensures var k := After(|tasks|, i);
      var less, at := tasks[..k] + tasks[k + 1..], if k < i then i - 1 else i;
      PickTasks(less, at, z) == PickTasks(tasks, i, z) && PickIndex(less, at, z) == PickIndex(tasks, i, z)
  {
    if i + 1 < |tasks| {
      var less := tasks[..i + 1] + tasks[i + 2..];
      assert tasks[i + 1..][1..] == tasks[i + 2..] == less[i + 1..];
      assert less[..i + 1] == tasks[..i + 1];
    } else {
      assert tasks[i + 1..] == [] && tasks[..i + 1] == tasks && tasks[..0] + tasks[1..] == tasks[1..];
      assert tasks[1..][i..] == [] && tasks[1..][..i] == tasks[1..];
    }
  }

  /** A live task that comes next is the one picked. */
  lemma KeepLive(tasks: seq<int>, i: nat, z: set<int>)
    requires i < |tasks| && tasks[After(|tasks|, i)] !in z
    ensures PickTasks(tasks, i, z) == tasks && PickIndex(tasks, i, z) == After(|tasks|, i)
  {
    if i + 1 < |tasks| {
      assert tasks[..i + 1] + tasks[i + 1..] == tasks;
    } else {
      assert tasks[i + 1..] == [] && tasks[..i + 1] == tasks;
    }
  }

  datatype TaskState = Ready | Sleeping | Zombie

  /** The bookkeeping around the task list, whose values are `values` and whose nodes are `nodes`. */
  ghost predicate Booked(values: seq<int>, nodes: seq<Node>, self: map<int, Node>, state: map<int, TaskState>,
                         nextTid: int, dead: set<int>)
  {
    && |values| == |nodes| && Distinct(values)
    && (forall i :: 0 <= i < |values| ==> values[i] in self && self[values[i]] == nodes[i] && values[i] in state)
    // Every created task is in the list, once, or has been destroyed.
    && (forall t :: 0 <= t < nextTid <==> t in values || t in dead)
    && (forall t :: t in values ==> t !in dead)
    && (forall t :: t in dead ==> t in state && state[t] == Zombie)
    // The idle task stays ready.
    && 0 in values && state[0] != Zombie
  }

  /** The time used by all tasks ever created, destroyed ones included, is `prevTicks` modulo 2^32. */
  ghost predicate Charged(nextTid: int, usage: map<int, int>, prevTicks: int)
  {
    && (Total(nextTid, usage) - prevTicks) % UINT32 == 0
    && (forall t :: t in usage <==> 0 <= t < nextTid)
    && forall t :: t in usage ==> 0 <= usage[t] < UINT32
  }

  lemma ChargedMore(nextTid: int, usage: map<int, int>, prevTicks: int, t: int, ticks: int)
    requires Charged(nextTid, usage, prevTicks) && 0 <= t < nextTid
    ensures Charged(nextTid, Spent(usage, t, prevTicks, ticks), ticks)
  {
    var used := (UsageOf(usage, t) + (ticks - prevTicks) % UINT32) % UINT32;
    TotalUpdate(nextTid, usage, t, used);
    ChargeMod(Total(nextTid, usage), usage[t], prevTicks, ticks);
  }

  /** The task charged gets the interval, modulo 2^32, and nobody else's time changes. */
  lemma SpentParts(nextTid: int, usage: map<int, int>, prevTicks: int, t: int, ticks: int)
    requires Charged(nextTid, usage, prevTicks) && 0 <= t < nextTid
    ensures var usage' := Spent(usage, t, prevTicks, ticks);
      && (forall u :: u in usage' <==> 0 <= u < nextTid)
      && (forall u :: u in usage <==> 0 <= u < nextTid)
      && usage'[t] == (usage[t] + ticks - prevTicks) % UINT32
      && forall u :: u in usage && u != t ==> usage'[u] == usage[u]
  {
    SpentMod(usage[t], ticks - prevTicks);
  }

  lemma ModAdd(u: int, r: int, d: int)
    ensures ((u + r) % UINT32 + d) % UINT32 == (u + r + d) % UINT32
  {
    assert u + r == (u + r) % UINT32 + UINT32 * ((u + r) / UINT32);
    ModShift((u + r) % UINT32 + d, (u + r) / UINT32);
  }

  lemma SpentMod(was: int, d: int)
    ensures (was + d % UINT32) % UINT32 == (was + d) % UINT32
  {
    assert was + d == was + d % UINT32 + UINT32 * (d / UINT32);
    ModShift(was + d % UINT32, d / UINT32);
  }

  lemma {:induction false} ModShift(a: int, k: int)
    ensures (a + UINT32 * k) % UINT32 == a % UINT32
  {
    var q, q' := a / UINT32, (a + UINT32 * k) / UINT32;
    assert a + UINT32 * k == UINT32 * q' + (a + UINT32 * k) % UINT32;
  }

  lemma ChargedNew(tid: int, usage: map<int, int>, prevTicks: int)
    requires Charged(tid, usage, prevTicks) && 0 <= tid
    ensures Charged(tid + 1, usage[tid := 0], prevTicks)
  {
    TotalUpdate(tid, usage, tid, 0);
  }

  lemma CutMembers(values: seq<int>, k: nat)
    requires k < |values| && Distinct(values)
    ensures forall t :: t in values[..k] + values[k + 1..] <==> t in values && t != values[k]
  {
    var values' := values[..k] + values[k + 1..];
    Cut(values, k);
    forall t
      ensures t in values' <==> t in values && t != values[k]
    {
      if t in values && t != values[k] {
        var i :| 0 <= i < |values| && values[i] == t;
        assert values'[if i < k then i else i - 1] == t;
      }
      if t in values' {
        var i :| 0 <= i < |values'| && values'[i] == t;
        assert values[if i < k then i else i + 1] == t;
      }
    }
  }

  lemma BookedWithout(values: seq<int>, nodes: seq<Node>, self: map<int, Node>, state: map<int, TaskState>,
                      nextTid: int, dead: set<int>, k: nat)
    requires Booked(values, nodes, self, state, nextTid, dead) && k < |values| && values[k] != 0
    requires state[values[k]] == Zombie
    ensures Booked(values[..k] + values[k + 1..], nodes[..k] + nodes[k + 1..], self, state, nextTid, dead + {values[k]})
  {
    var values', nodes' := values[..k] + values[k + 1..], nodes[..k] + nodes[k + 1..];
    CutMembers(values, k);
    Cut(values, k);
    forall i | 0 <= i < |values'|
      ensures values'[i] in self && self[values'[i]] == nodes'[i] && values'[i] in state
    {
      var j := if i < k then i else i + 1;
      assert values'[i] == values[j] && nodes'[i] == nodes[j];
    }
    hide Distinct;
    var t := values[k];
    assert t in values;
  }

  /** A zombie that comes next is not the current task: the idle task is in the list and is none. */
  lemma NextIsOther(values: seq<int>, nodes: seq<Node>, self: map<int, Node>, state: map<int, TaskState>,
                    nextTid: int, dead: set<int>, pos: nat)
    requires Booked(values, nodes, self, state, nextTid, dead) && pos < |values|
    ensures var k := After(|values|, pos);
      values[k] in state && (state[values[k]] == Zombie ==> k != pos && values[k] != 0)
  {
    if |values| == 1 {
      assert values[0] == 0;
    }
  }

  class Scheduler {
    const tasks: List
    var current: int
    var nextTid: int
    var prevTicks: int
    var state: map<int, TaskState>
    var usage: map<int, int>
    var self: map<int, Node>
    ghost var pos: nat          // index of the current task
    ghost var dead: set<int>    // destroyed tasks; `usage` still has their time

    ghost function Zombies(): set<int>
      reads this
    {
      set t | t in state && state[t] == Zombie
    }

    ghost predicate Valid()
      reads this, tasks, tasks.nodes
    {
      && tasks.Valid()
      && pos < |tasks.nodes| && tasks.Values()[pos] == current
      && Booked(tasks.Values(), tasks.nodes, self, state, nextTid, dead)
      && Charged(nextTid, usage, prevTicks)
    }

    /** multitasking_init: the idle task is created, and the first schedule picks it. */
    constructor ()
      ensures Valid() && tasks.Values() == [0] && current == 0 && nextTid == 1 && dead == {} && fresh(tasks)
      ensures fresh(tasks.nodes)
    {
      tasks := new List();
      current, nextTid, prevTicks := 0, 1, 0;
      state, usage := map[0 := Ready], map[0 := 0];
      self := map[];
      pos, dead := 0, {};
      new;
      hide Booked, Charged, Distinct, List.Valid;
      var node := tasks.InsertFront(0);
      self := map[0 := node];
      FirstTask(node);
    }

    /** task_destroy, for the task at index `k` of the list. */
    method Destroy(t: int, ghost k: nat)
      requires Valid() && k < |tasks.nodes| && tasks.Values()[k] == t && k != pos && t != 0 && t in state
      requires state[t] == Zombie
      modifies this`pos, this`dead, tasks, tasks.nodes
      ensures Valid() && tasks.Values() == old(tasks.Values())[..k] + old(tasks.Values())[k + 1..]
      ensures tasks.nodes == old(tasks.nodes)[..k] + old(tasks.nodes)[k + 1..]
      ensures pos == if k < old(pos) then old(pos) - 1 else old(pos)
      ensures dead == old(dead) + {t}
    {
      hide Booked, Charged, Distinct, List.Values;
      BookedWithout(tasks.Values(), tasks.nodes, self, state, nextTid, dead, k);
      Listed(tasks.Values(), tasks.nodes, self, state, nextTid, dead, k);
      tasks.RemoveNode(self[t], k);
      pos := if k < pos then pos - 1 else pos;
      dead := dead + {t};
    }

    /** schedule, once there is a current task: reap zombies, pick the next task, charge the time to the old one. */
    method Schedule(ticks: int) returns (ghost d: nat)
      requires Valid() && 0 <= ticks < UINT32
      modifies this, tasks, tasks.nodes
      ensures Valid() && state == old(state) && self == old(self)
      ensures var values, n := old(tasks.Values()), |old(tasks.nodes)|;
        && 0 < d <= n && tasks.Values() == Rest(values, old(pos), d) && current == values[Around(n, old(pos), d)]
        && forall m :: 0 < m < d ==> values[Around(n, old(pos), m)] in old(Zombies())
      ensures tasks.Values() == PickTasks(old(tasks.Values()), old(pos), old(Zombies()))
      ensures pos == PickIndex(old(tasks.Values()), old(pos), old(Zombies()))
      ensures current in state && state[current] != Zombie
      ensures dead >= old(dead) && old(current) !in dead
      ensures forall t :: t in dead ==> t in old(dead) || t in old(Zombies())
      ensures forall i :: 0 <= i < |tasks.nodes| ==> tasks.nodes[i] in old(tasks.nodes)
      ensures nextTid == old(nextTid) && prevTicks == ticks && forall t :: t in usage <==> 0 <= t < nextTid
      ensures forall t :: t in usage ==>
        usage[t] == if t == old(current) then (old(usage[t]) + ticks - old(prevTicks)) % UINT32 else old(usage)[t]
    {
      hide Booked, Charged, Distinct, PickTasks, PickIndex, Rest, Around, Spent, List.Valid, List.Values;
      SpentNow(ticks);
      SomeReady();
      d := RoundRobin(tasks.Values(), pos, Zombies());
      var next := PickNext();
      ghost var k := After(|tasks.nodes|, pos);
      Charge(ticks);
      current := next;
      pos := k;
    }

    /** What charging the current task does. */
    lemma SpentNow(ticks: int)
      requires Valid()
      ensures var usage' := Spent(usage, current, prevTicks, ticks);
        && 0 <= current < nextTid && current in usage && (forall t :: t in usage ==> 0 <= usage[t] < UINT32)
        && (forall t :: t in usage' <==> 0 <= t < nextTid) && (forall t :: t in usage <==> 0 <= t < nextTid)
        && forall t :: t in usage ==>
          usage'[t] == if t == current then (usage[t] + ticks - prevTicks) % UINT32 else usage[t]
    {
      hide Booked, Spent;
      BookedRange(tasks.Values(), tasks.nodes, self, state, nextTid, dead);
      SpentParts(nextTid, usage, prevTicks, current, ticks);
    }

    /** The idle task is listed and no zombie. */
    lemma SomeReady()
      requires Valid()
      ensures exists k :: 0 <= k < |tasks.nodes| && tasks.Values()[k] !in Zombies()
      ensures Idle(Seen())
    {
      hide Charged, Distinct;
      var k :| 0 <= k < |tasks.nodes| && tasks.Values()[k] == 0;
    }

    /** What the pick loop holds: the node after the current task's, and the task it is about to consider. */
    ghost predicate Considers(node: Node?, next: int)
      requires pos < |tasks.nodes|
      reads this, tasks, tasks.nodes
    {
      && node == (if pos + 1 == |tasks.nodes| then null else tasks.nodes[pos + 1])
      && next == tasks.Values()[After(|tasks.nodes|, pos)] && next in state
      && (state[next] == Zombie ==> After(|tasks.nodes|, pos) != pos && next != 0)
    }

    method Consider(node: Node?) returns (next: int)
      requires Valid() && node == if pos + 1 == |tasks.nodes| then null else tasks.nodes[pos + 1]
      ensures Considers(node, next)
    {
      hide Booked, Charged;
      next := if node == null then tasks.head.value else node.value;
      NextIsOther(tasks.Values(), tasks.nodes, self, state, nextTid, dead, pos);
    }

    /** The `_pick_next` loop: destroy what comes next while it is a zombie. */
    method PickNext() returns (next: int)
      requires Valid()
      modifies this`pos, this`dead, tasks, tasks.nodes
      ensures Valid() && next == tasks.Values()[After(|tasks.nodes|, pos)]
      ensures next in state && state[next] != Zombie
      ensures tasks.Values() == PickTasks(old(tasks.Values()), old(pos), Zombies())
      ensures After(|tasks.nodes|, pos) == PickIndex(old(tasks.Values()), old(pos), Zombies())
      ensures dead >= old(dead) && current !in dead && forall t :: t in dead ==> t in old(dead) || t in Zombies()
      ensures forall i :: 0 <= i < |tasks.nodes| ==> tasks.nodes[i] in old(tasks.nodes)
    {
      hide Booked, Charged, PickTasks, PickIndex, Distinct;
      ghost var values, at, z := tasks.Values(), pos, Zombies();
      Listed(tasks.Values(), tasks.nodes, self, state, nextTid, dead, pos);
      var node := self[current].next;
      next := Consider(node);
      while state[next] == Zombie
        invariant Valid() && Considers(node, next)
        invariant PickTasks(tasks.Values(), pos, z) == PickTasks(values, at, z)
        invariant PickIndex(tasks.Values(), pos, z) == PickIndex(values, at, z)
        invariant dead >= old(dead) && forall t :: t in dead ==> t in old(dead) || t in z
        invariant forall i :: 0 <= i < |tasks.nodes| ==> tasks.nodes[i] in old(tasks.nodes)
        decreases |tasks.nodes|
      {
        node, next := ReapNext(node, next);
      }
      Listed(tasks.Values(), tasks.nodes, self, state, nextTid, dead, pos);
      KeepLive(tasks.Values(), pos, z);
    }

    /**
      One round: the zombie is destroyed and the loop goes on with the node behind it, saved before
      that one is freed.
     */
    method ReapNext(node: Node?, next: int) returns (node': Node?, next': int)
      requires Valid() && Considers(node, next) && state[next] == Zombie
      modifies this`pos, this`dead, tasks, tasks.nodes
      ensures Valid() && Considers(node', next') && dead == old(dead) + {next}
      ensures |tasks.nodes| == |old(tasks.nodes)| - 1
      ensures PickTasks(tasks.Values(), pos, Zombies()) == old(PickTasks(tasks.Values(), pos, Zombies()))
      ensures PickIndex(tasks.Values(), pos, Zombies()) == old(PickIndex(tasks.Values(), pos, Zombies()))
      ensures forall i :: 0 <= i < |tasks.nodes| ==> tasks.nodes[i] in old(tasks.nodes)
    {
      hide Booked, Charged, PickTasks, PickIndex, Distinct;
      DropZombie(tasks.Values(), pos, Zombies());
      node' := if node == null then null else node.next;
      Destroy(next, After(|tasks.nodes|, pos));
      next' := Consider(node');
    }

    /** What bounded waiting is about. */
    ghost function Seen(): View
      reads this, tasks, tasks.nodes
    {
      View(tasks.Values(), pos, Zombies(), nextTid)
    }

    lemma SeenProper()
      requires Valid()
      ensures Proper(Seen()) && Picked(Seen()) == current
    {
      hide Booked, Charged;
      BookedRange(tasks.Values(), tasks.nodes, self, state, nextTid, dead);
    }

    /** Every task created is listed or was a zombie. */
    lemma SeenZombies()
      requires Valid()
      ensures forall t :: 0 <= t < nextTid && t !in Seen().tasks ==> t in Seen().z
    {
      hide Booked, Charged;
      BookedRange(tasks.Values(), tasks.nodes, self, state, nextTid, dead);
    }

    lemma SeenCharged()
      requires Valid()
      ensures (Total(nextTid, usage) - prevTicks) % UINT32 == 0
    {
      hide Booked, Total;
    }

    /** A timer tick. */
    method OnTick(ticks: int)
      requires Valid() && 0 <= ticks < UINT32
      modifies this, tasks, tasks.nodes
      ensures Valid() && Proper(old(Seen())) && Seen() == Next(old(Seen()), Tick) && dead >= old(dead)
      ensures state == old(state) && current in state && state[current] != Zombie
      ensures nextTid == old(nextTid) && prevTicks == ticks && forall t :: t in usage <==> 0 <= t < nextTid
      ensures forall t :: t in usage ==>
        usage[t] == if t == old(current) then (old(usage[t]) + ticks - old(prevTicks)) % UINT32 else old(usage)[t]
      ensures forall i :: 0 <= i < |tasks.nodes| ==> fresh(tasks.nodes[i]) || tasks.nodes[i] in old(tasks.nodes)
    {
      hide Booked, Charged, PickTasks, PickIndex, Proper, List.Valid, List.Values;
      SeenProper();
      ghost var d := Schedule(ticks);
    }

    /** task_create: a new ready task at the front of the list, then schedule. */
    method TaskCreate(ticks: int) returns (tid: int)
      requires Valid() && 0 <= ticks < UINT32
      modifies this, tasks, tasks.nodes
      ensures Valid() && Proper(old(Seen())) && tid == old(nextTid) && nextTid == tid + 1 && tid !in old(tasks.Values())
      ensures Seen() == Next(old(Seen()), Create) && dead >= old(dead)
      ensures current in state && state[current] != Zombie
      ensures state == old(state)[tid := Ready] && tasks.Values() != [] && tasks.Values()[0] == tid
      ensures prevTicks == ticks && forall t :: t in usage <==> 0 <= t < nextTid
      ensures usage[tid] == 0 && forall t :: t in old(usage) ==>
        usage[t] == if t == old(current) then (old(usage[t]) + ticks - old(prevTicks)) % UINT32 else old(usage)[t]
      ensures forall i :: 0 <= i < |tasks.nodes| ==> fresh(tasks.nodes[i]) || tasks.nodes[i] in old(tasks.nodes)
    {
      hide Booked, Charged, PickTasks, PickIndex, Proper, Rest, Around, Spent, List.Valid, List.Values;
      SeenProper();
      NextCreates(Seen());
      SpentNow(ticks);
      tid := nextTid;
      AddFront(tid);
      ghost var d := Schedule(ticks);
    }

    method AddFront(tid: int)
      requires Valid() && tid == nextTid
      modifies this, tasks, tasks.nodes
      ensures Valid() && Distinct(old(tasks.Values())) && tid !in old(tasks.Values()) && nextTid == tid + 1
      ensures tasks.Values() == [tid] + old(tasks.Values()) && pos == old(pos) + 1 && current == old(current)
      ensures state == old(state)[tid := Ready] && Zombies() == old(Zombies()) - {tid}
      ensures usage == old(usage)[tid := 0] && prevTicks == old(prevTicks)
      ensures dead == old(dead)
      ensures |tasks.nodes| == |old(tasks.nodes)| + 1 && fresh(tasks.nodes[0]) && tasks.nodes[1..] == old(tasks.nodes)
    {
      hide Booked, Charged, Distinct, List.Valid, List.Values;
      ghost var values, nodes := tasks.Values(), tasks.nodes;
      ghost var self0, state0, usage0 := self, state, usage;
      BookedRange(values, nodes, self, state, nextTid, dead);
      nextTid := nextTid + 1;
      state := state[tid := Ready];
      usage := usage[tid := 0];
      var node := tasks.InsertFront(tid);
      self := self[tid := node];
      pos := pos + 1;
      BookedWith(values, nodes, self0, state0, tid, dead, node);
      ChargedNew(tid, usage0, prevTicks);
    }

    /** task_exit: the current task, never the idle one, becomes a zombie, then schedule. */
    method TaskExit(ticks: int)
      requires Valid() && 0 <= ticks < UINT32 && current != 0
      modifies this, tasks, tasks.nodes
      ensures Valid() && Proper(old(Seen())) && Seen() == Next(old(Seen()), Exit) && dead >= old(dead)
      ensures state == old(state)[old(current) := Zombie] && current != old(current)
      ensures current in state && state[current] != Zombie
      ensures nextTid == old(nextTid) && prevTicks == ticks && forall t :: t in usage <==> 0 <= t < nextTid
      ensures forall t :: t in usage ==>
        usage[t] == if t == old(current) then (old(usage[t]) + ticks - old(prevTicks)) % UINT32 else old(usage)[t]
      ensures forall i :: 0 <= i < |tasks.nodes| ==> fresh(tasks.nodes[i]) || tasks.nodes[i] in old(tasks.nodes)
    {
      hide Booked, Charged, PickTasks, PickIndex, Proper, List.Valid, List.Values;
      SeenProper();
      BookedExit(tasks.Values(), tasks.nodes, self, state, nextTid, dead, pos);
      state := state[current := Zombie];
      assert Zombies() == old(Zombies()) + {current};
      ghost var d := Schedule(ticks);
    }

    /** The time since the last switch goes to the current task, in 32-bit arithmetic. */
    method Charge(ticks: int)
      requires Valid() && 0 <= ticks < UINT32
      modifies `usage, `prevTicks
      ensures Valid() && prevTicks == ticks && usage == Spent(old(usage), current, old(prevTicks), ticks)
      ensures current in usage && forall t :: t in usage <==> t in old(usage)
      ensures forall t :: t in usage ==>
        usage[t] == if t == current then (old(usage[t]) + ticks - old(prevTicks)) % UINT32 else old(usage)[t]
    {
      hide Booked, Charged, List.Valid, List.Values;
      SpentNow(ticks);
      var was := UsageOf(usage, current);
      ChargedMore(nextTid, usage, prevTicks, current, ticks);
      usage := usage[current := (was + (ticks - prevTicks) % UINT32) % UINT32];
      prevTicks := ticks;
    }
  }

  /** What makes the kernel call schedule. */
  datatype Cause = Timer(at: int) | Spawn(at: int) | Quit(at: int)

  /** The event a cause makes of a view: the idle task never exits. */
  ghost function EventOf(cause: Cause, v: View): Event
    requires Proper(v)
  {
    match cause
    case Timer(_) => Tick
    case Spawn(_) => Create
    case Quit(_) => if Picked(v) != 0 then Exit else Tick
  }

  method RunOne(sch: Scheduler, cause: Cause)
    requires sch.Valid() && 0 <= cause.at < UINT32
    modifies sch, sch.tasks, sch.tasks.nodes
    ensures sch.Valid() && Proper(old(sch.Seen()))
    ensures sch.Seen() == Next(old(sch.Seen()), EventOf(cause, old(sch.Seen())))
    ensures sch.prevTicks == cause.at
    ensures Switched(old(sch.usage), sch.usage, old(sch.current), cause.at - old(sch.prevTicks))
    ensures forall i :: 0 <= i < |sch.tasks.nodes| ==>
      fresh(sch.tasks.nodes[i]) || sch.tasks.nodes[i] in old(sch.tasks.nodes)
  {
    hide Booked, Charged, Distinct, Next, Scheduler.Valid, Spent;
    sch.SeenProper();
    sch.SpentNow(cause.at);
    ghost var usage, t, d := sch.usage, sch.current, cause.at - sch.prevTicks;
    match cause {
      case Timer(at) =>
        sch.OnTick(at);
      case Spawn(at) =>
        var tid := sch.TaskCreate(at);
      case Quit(at) =>
        if sch.current != 0 {
          sch.TaskExit(at);
        } else {
          sch.OnTick(at);
        }
    }
  }

  ghost predicate Viewed(views: seq<View>)
  {
    forall k :: 0 <= k < |views| ==> views[k].i < |views[k].tasks|
  }

  /**
    A task that is created is listed and ready, and whoever is listed and ready when there are n tasks
    is made current within 2n - 2 calls from then.
   */
  ghost predicate ReadyServed(causes: seq<Cause>, views: seq<View>, picks: seq<int>)
    requires |views| == |causes| + 1 && |picks| == |causes| && Viewed(views)
  {
    && (forall k :: 0 <= k < |causes| && causes[k].Spawn? ==>
          views[k].next in views[k + 1].tasks && views[k].next !in views[k + 1].z)
    && forall k, t :: 0 <= k < |views| && t in views[k].tasks ==> Served(views[k], k, t, picks)
  }

  ghost predicate Served(v: View, k: nat, t: int, picks: seq<int>)
    requires v.i < |v.tasks|
  {
    t != Picked(v) && t !in v.z && |picks| >= k + 2 * |v.tasks| - 2 ==>
      exists m :: k <= m < k + 2 * |v.tasks| - 2 && m < |picks| && picks[m] == t
  }

  /**
    A task that has exited is never made current again, and is off the list, for good, after 2n - 2
    further calls when the exit has left n tasks.
   */
  ghost predicate ExitsFinal(causes: seq<Cause>, views: seq<View>, picks: seq<int>)
    requires |views| == |causes| + 1 && |picks| == |causes| && Viewed(views)
  {
    forall k :: 0 <= k < |causes| && causes[k].Quit? && Picked(views[k]) != 0 ==>
      Gone(Picked(views[k]), k, views, picks)
  }

  ghost predicate Gone(t: int, k: nat, views: seq<View>, picks: seq<int>)
    requires k + 1 < |views|
  {
    && (forall m :: k <= m < |picks| ==> picks[m] != t)
    && (forall m :: k + 2 * |views[k + 1].tasks| - 1 <= m < |views| && k <= m ==> t !in views[m].tasks)
  }

  /** The picks and events of a run, view by view. */
  ghost predicate Follows(causes: seq<Cause>, views: seq<View>, es: seq<Event>, picks: seq<int>)
  {
    && IsRun(views, es) && Viewed(views) && |views| == |es| + 1 && |es| == |causes| == |picks|
    && (forall k :: 0 <= k < |es| ==> es[k] == EventOf(causes[k], views[k]))
    && (forall k :: 0 <= k < |es| ==> picks[k] == Picked(views[k + 1]))
  }

  lemma FollowsMore(causes: seq<Cause>, views: seq<View>, es: seq<Event>, picks: seq<int>, cause: Cause, w: View)
    requires Follows(causes, views, es, picks) && Proper(w) && w == Next(views[|es|], EventOf(cause, views[|es|]))
    ensures Follows(causes + [cause], views + [w], es + [EventOf(cause, views[|es|])], picks + [Picked(w)])
  {
    hide Next, Distinct, EventOf;
    var e := EventOf(cause, views[|es|]);
    RunMore(views, es, e, w);
    hide IsRun;
    var cs, vs, fs, ps := causes + [cause], views + [w], es + [e], picks + [Picked(w)];
    forall k {:trigger vs[k]} | 0 <= k < |fs|
      ensures Proper(vs[k]) && fs[k] == EventOf(cs[k], vs[k]) && vs[k + 1].i < |vs[k + 1].tasks|
      ensures ps[k] == Picked(vs[k + 1])
    {
      RunProper(views, es, k);
      assert vs[k] == views[k];
      if k < |es| {
        assert vs[k + 1] == views[k + 1];
        RunProper(views, es, k + 1);
      }
    }
  }

  lemma FollowsSpared(causes: seq<Cause>, views: seq<View>, es: seq<Event>, picks: seq<int>)
    requires Follows(causes, views, es, picks) && Idle(views[0])
    ensures Spared(views, es)
  {
    hide Next, Distinct, Idle;
  }

  /** Who has exited is never made current again, and is off the list once the cursor has gone round. */
  lemma ExitedGone(causes: seq<Cause>, views: seq<View>, es: seq<Event>, picks: seq<int>, k: nat, m: nat)
    requires Follows(causes, views, es, picks) && Idle(views[0])
    requires k < |causes| && causes[k].Quit? && views[k].i < |views[k].tasks| && Picked(views[k]) != 0 && k <= m
    ensures m < |picks| ==> picks[m] != Picked(views[k])
    ensures m < |views| && m >= k + 2 * |views[k + 1].tasks| - 1 ==> Picked(views[k]) !in views[m].tasks
  {
    hide Next, Distinct, Idle;
    FollowsSpared(causes, views, es, picks);
    var t := Picked(views[k]);
    RunProper(views, es, k);
    PickedOld(views[k]);
    NextZombies(views[k], es[k], t);
    assert views[k + 1] == Next(views[k], es[k]);
    RunAlive(views, es, k + 1);
    SparedFrom(views, es, k + 1);
    var vs, fs := views[k + 1..], es[k + 1..];
    assert vs[0] == views[k + 1];
    if m < |picks| {
      NeverPicked(vs, fs, t, m - k);
      assert vs[m - k] == views[m + 1];
    }
    if m < |views| && m >= k + 2 * |views[k + 1].tasks| - 1 {
      ZombieLeaves(vs, fs, t, m - k - 1);
      assert vs[m - k - 1] == views[m];
    }
  }

  lemma PickedOld(v: View)
    requires Proper(v)
    ensures Picked(v) < v.next && |v.tasks| > 0
  {
  }

  /** Whoever waits ready at some time is picked within 2n - 2 calls from then. */
  lemma ReadyPicked(causes: seq<Cause>, views: seq<View>, es: seq<Event>, picks: seq<int>, k: nat, t: int)
    requires Follows(causes, views, es, picks) && k < |views| && views[k].i < |views[k].tasks|
    requires t in views[k].tasks && t != Picked(views[k]) && t !in views[k].z
    requires |causes| >= k + 2 * |views[k].tasks| - 2
    ensures exists m :: k <= m < k + 2 * |views[k].tasks| - 2 && m < |picks| && picks[m] == t
  {
    hide Next, Distinct;
    RunFrom(views, es, k);
    var vs := views[k..];
    var m := BoundedWaiting(vs, es[k..], t);
    assert vs[m] == views[k + m] && picks[k + m - 1] == t;
  }

  /**
    Any run of timer ticks, task creations and exits, where the idle task never exits. The list and
    the tasks made current are those of the reference, and every task created is listed or was a
    zombie. Whoever is ready is picked within 2n - 2 calls, whoever has exited never again, and is off
    the list as soon. Each task's time grows by what it ran, modulo 2^32, and all time is accounted for.
   */
  method RunTasks(sch: Scheduler, causes: seq<Cause>)
    returns (picks: seq<int>, ghost views: seq<View>, ghost es: seq<Event>)
    requires sch.Valid() && forall k :: 0 <= k < |causes| ==> 0 <= causes[k].at < UINT32
    modifies sch, sch.tasks, sch.tasks.nodes
    ensures sch.Valid() && Follows(causes, views, es, picks)
    ensures views[0] == old(sch.Seen()) && views[|causes|] == sch.Seen()
    ensures forall t :: 0 <= t < sch.nextTid && t !in sch.Seen().tasks ==> t in sch.Seen().z
    ensures ReadyServed(causes, views, picks) && ExitsFinal(causes, views, picks)
    ensures forall t :: 0 <= t < sch.nextTid ==>
      t in sch.usage &&
      sch.usage[t] == (UsageOf(old(sch.usage), t) + Ran(causes, views, old(sch.prevTicks), t, |causes|)) % UINT32
    ensures (Total(sch.nextTid, sch.usage) - if causes == [] then old(sch.prevTicks)
      else causes[|causes| - 1].at) % UINT32 == 0
  {
    hide Booked, Charged, Distinct, Next, EventOf, IsRun, Scheduler.Valid, Scheduler.Seen, Idle, Ran, Switched,
      ReadyServed, ExitsFinal;
    sch.SeenProper();
    picks, views, es := [], [sch.Seen()], [];
    StartsRun(sch.Seen());
    sch.SpentNow(0);
    sch.SomeReady();
    StartsBilled(sch.usage, sch.Seen(), sch.prevTicks);
    for n := 0 to |causes|
      invariant sch.Valid() && Follows(causes[..n], views, es, picks)
      invariant views[0] == old(sch.Seen()) && views[n] == sch.Seen() && Viewed(views) && Idle(views[0])
      invariant sch.prevTicks == if n == 0 then old(sch.prevTicks) else causes[n - 1].at
      invariant Billed(sch.usage, old(sch.usage), causes[..n], views, old(sch.prevTicks))
      invariant forall i :: 0 <= i < |sch.tasks.nodes| ==>
        fresh(sch.tasks.nodes[i]) || sch.tasks.nodes[i] in old(sch.tasks.nodes)
    {
      ghost var v, usage := sch.Seen(), sch.usage;
      sch.SeenProper();
      RunOne(sch, causes[n]);
      sch.SeenProper();
      FollowsMore(causes[..n], views, es, picks, causes[n], sch.Seen());
      BilledMore(usage, old(sch.usage), causes, n, views, old(sch.prevTicks), sch.usage, sch.Seen());
      assert causes[..n] + [causes[n]] == causes[..n + 1];
      picks, views, es := picks + [sch.current], views + [sch.Seen()], es + [EventOf(causes[n], v)];
    }
    assert causes[..|causes|] == causes;
    sch.SeenZombies();
    sch.SeenCharged();
    sch.SpentNow(0);
    BilledAll(sch.usage, sch.nextTid, old(sch.usage), causes, views, old(sch.prevTicks));
    RunReady(causes, views, es, picks);
    RunExits(causes, views, es, picks);
  }

  lemma StartsRun(v: View)
    requires Proper(v)
    ensures Follows([], [v], [], []) && Viewed([v])
  {
  }

  /** The time between the first k causes during which task `t` was the current one. */
  ghost function Ran(causes: seq<Cause>, views: seq<View>, prev: int, t: int, k: nat): int
    requires k <= |causes| && k <= |views| && Viewed(views)
  {
    if k == 0 then 0 else
      Ran(causes, views, prev, t, k - 1) +
      if Picked(views[k - 1]) == t then causes[k - 1].at - (if k == 1 then prev else causes[k - 2].at) else 0
  }

  lemma {:induction false} RanKept(causes: seq<Cause>, views: seq<View>, prev: int, t: int, k: nat, n: nat, w: View)
    requires k <= n < |causes| && k <= |views| && Viewed(views) && w.i < |w.tasks|
    ensures Ran(causes[..n], views, prev, t, k) == Ran(causes[..n + 1], views + [w], prev, t, k)
  {
    if k > 0 {
      RanKept(causes, views, prev, t, k - 1, n, w);
      assert (views + [w])[k - 1] == views[k - 1];
    }
  }

  /** Each task's time is what it was before the run and what it ran, modulo 2^32. */
  ghost predicate Billed(usage: map<int, int>, usage0: map<int, int>, causes: seq<Cause>, views: seq<View>, prev: int)
    requires |causes| <= |views| && Viewed(views)
  {
    forall t :: UsageOf(usage, t) == (UsageOf(usage0, t) + Ran(causes, views, prev, t, |causes|)) % UINT32
  }

  /** The time between two causes goes to the task that was current in between. */
  lemma BilledMore(usage: map<int, int>, usage0: map<int, int>, causes: seq<Cause>, n: nat, views: seq<View>,
                   prev: int, usage': map<int, int>, w: View)
    requires n < |causes| && |views| == n + 1 && Viewed(views) && w.i < |w.tasks|
    requires Billed(usage, usage0, causes[..n], views, prev)
    requires Switched(usage, usage', Picked(views[n]), causes[n].at - if n == 0 then prev else causes[n - 1].at)
    ensures Viewed(views + [w]) && Billed(usage', usage0, causes[..n + 1], views + [w], prev)
  {
    var vs, cs := views + [w], causes[..n + 1];
    forall t
      ensures UsageOf(usage', t) == (UsageOf(usage0, t) + Ran(cs, vs, prev, t, n + 1)) % UINT32
    {
      RanKept(causes, views, prev, t, n, n, w);
      assert vs[n] == views[n] && cs[n] == causes[n] && (n > 0 ==> cs[n - 1] == causes[n - 1]);
      var ran := Ran(causes[..n], views, prev, t, n);
      assert UsageOf(usage, t) == (UsageOf(usage0, t) + ran) % UINT32;
      assert UsageOf(usage', t) == if t == Picked(views[n]) then
        (UsageOf(usage, t) + causes[n].at - if n == 0 then prev else causes[n - 1].at) % UINT32 else UsageOf(usage, t);
      ModAdd(UsageOf(usage0, t), ran, causes[n].at - if n == 0 then prev else causes[n - 1].at);
    }
  }

  /** Time `d` goes to task `t`. */
  ghost predicate Switched(usage: map<int, int>, usage': map<int, int>, t: int, d: int)
  {
    forall u :: UsageOf(usage', u) == if u == t then (UsageOf(usage, u) + d) % UINT32 else UsageOf(usage, u)
  }

  lemma BilledAll(usage: map<int, int>, nextTid: int, usage0: map<int, int>, causes: seq<Cause>, views: seq<View>,
                  prev: int)
    requires |causes| <= |views| && Viewed(views) && Billed(usage, usage0, causes, views, prev)
    requires forall t :: t in usage <==> 0 <= t < nextTid
    ensures forall t :: 0 <= t < nextTid ==>
      t in usage && usage[t] == (UsageOf(usage0, t) + Ran(causes, views, prev, t, |causes|)) % UINT32
  {
    forall t | 0 <= t < nextTid
      ensures t in usage && usage[t] == (UsageOf(usage0, t) + Ran(causes, views, prev, t, |causes|)) % UINT32
    {
      assert usage[t] == UsageOf(usage, t);
    }
  }

  lemma StartsBilled(usage: map<int, int>, v: View, prev: int)
    requires v.i < |v.tasks| && forall t :: t in usage ==> 0 <= usage[t] < UINT32
    ensures Viewed([v]) && Billed(usage, usage, [], [v], prev)
  {
  }

  lemma RunReady(causes: seq<Cause>, views: seq<View>, es: seq<Event>, picks: seq<int>)
    requires Follows(causes, views, es, picks)
    ensures ReadyServed(causes, views, picks)
  {
    hide Next, Distinct;
    forall k | 0 <= k < |causes| && causes[k].Spawn?
      ensures views[k].next in views[k + 1].tasks && views[k].next !in views[k + 1].z
    {
      NextCreates(views[k]);
      assert views[k + 1] == Next(views[k], es[k]);
    }
    forall k, t | 0 <= k < |views| && t in views[k].tasks
      ensures Served(views[k], k, t, picks)
    {
      if t != Picked(views[k]) && t !in views[k].z && |picks| >= k + 2 * |views[k].tasks| - 2 {
        ReadyPicked(causes, views, es, picks, k, t);
      }
    }
  }

  lemma RunExits(causes: seq<Cause>, views: seq<View>, es: seq<Event>, picks: seq<int>)
    requires Follows(causes, views, es, picks) && Idle(views[0])
    ensures ExitsFinal(causes, views, picks)
  {
    hide Next, Distinct, Idle, IsRun, EventOf;
    forall k | 0 <= k < |causes| && causes[k].Quit? && Picked(views[k]) != 0
      ensures Gone(Picked(views[k]), k, views, picks)
    {
      forall m | k <= m < |views|
        ensures m < |picks| ==> picks[m] != Picked(views[k])
        ensures m >= k + 2 * |views[k + 1].tasks| - 1 ==> Picked(views[k]) !in views[m].tasks
      {
        ExitedGone(causes, views, es, picks, k, m);
      }
    }
  }

  lemma FirstTask(node: Node)
    ensures Booked([0], [node], map[0 := node], map[0 := Ready], 1, {}) && Charged(1, map[0 := 0], 0)
  {
    assert Total(0, map[0 := 0]) == 0;
  }

  lemma BookedExit(values: seq<int>, nodes: seq<Node>, self: map<int, Node>, state: map<int, TaskState>, nextTid: int,
                   dead: set<int>, k: nat)
    requires Booked(values, nodes, self, state, nextTid, dead) && k < |values| && values[k] != 0
    ensures Booked(values, nodes, self, state[values[k] := Zombie], nextTid, dead) && Distinct(values)
  {
  }

  lemma BookedWith(values: seq<int>, nodes: seq<Node>, self: map<int, Node>, state: map<int, TaskState>, tid: int,
                   dead: set<int>, node: Node)
    requires Booked(values, nodes, self, state, tid, dead)
    ensures Booked([tid] + values, [node] + nodes, self[tid := node], state[tid := Ready], tid + 1, dead)
    ensures tid !in values && Distinct(values)
  {
    assert tid !in values && tid !in dead;
    forall t
      ensures t in [tid] + values <==> t == tid || t in values
    {
    }
  }

  lemma BookedRange(values: seq<int>, nodes: seq<Node>, self: map<int, Node>, state: map<int, TaskState>,
                    nextTid: int, dead: set<int>)
    requires Booked(values, nodes, self, state, nextTid, dead)
    ensures Distinct(values) && 0 < nextTid && forall i :: 0 <= i < |values| ==> 0 <= values[i] < nextTid
    ensures forall t :: 0 <= t < nextTid && t !in values ==> t in state && state[t] == Zombie
  {
    assert 0 in values;
    forall i | 0 <= i < |values|
      ensures 0 <= values[i] < nextTid
    {
      var t := values[i];
      assert t in values;
    }
  }

  lemma ChargeMod(sum: int, was: int, prev: int, ticks: int)
    requires (sum - prev) % UINT32 == 0
    ensures (sum + (was + (ticks - prev) % UINT32) % UINT32 - was - ticks) % UINT32 == 0
  {
    var d := (ticks - prev) % UINT32;
    var u := (was + d) % UINT32;
    assert ticks - prev == UINT32 * ((ticks - prev) / UINT32) + d;
    assert was + d == UINT32 * ((was + d) / UINT32) + u;
    assert sum - prev == UINT32 * ((sum - prev) / UINT32);
    var q := (sum - prev) / UINT32 - (was + d) / UINT32 - (ticks - prev) / UINT32;
    assert sum + u - was - ticks == UINT32 * q;
  }

  lemma Listed(values: seq<int>, nodes: seq<Node>, self: map<int, Node>, state: map<int, TaskState>, nextTid: int,
               dead: set<int>, k: nat)
    requires Booked(values, nodes, self, state, nextTid, dead) && k < |values|
    ensures Distinct(values) && values[k] in self && self[values[k]] == nodes[k] && values[k] in state
    ensures values[k] !in dead
  {
    var t := values[k];
    assert t in values;
  }
}
