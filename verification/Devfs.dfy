/**
  The device registry: any number of threads registering, finding and listing devices under one
  spinlock, interleaved at one test-and-set, one node visit, one insert and one release a step.
 */
module DeviceRegistry {

  datatype Device = Device(name: string, node: int)

  datatype Op = Register(dev: Device) | Find(name: string) | ReadDir(index: nat)

  /** What an operation returns; NoEntry stands for NULL, and for nothing in the case of register. */
  datatype Answer = NoEntry | Entry(dev: Device)

  /**
    Where a thread is. Inside the lock `start` is the number of devices when the lock was taken and
    `left` the number of list nodes not visited yet.
   */
  datatype Pc =
    | Idle
    | Spin(op: Op)
    | Visit(op: Op, start: nat, left: nat)
    | Insert(op: Op, start: nat)
    | Release(op: Op, start: nat, answer: Answer)
    | Done(op: Op, start: nat, answer: Answer)

  /**
    `devs` in order of registration: inserting at the front of the list appends here, and a traversal
    runs backwards.
   */
  datatype State = State(lock: bool, devs: seq<Device>, pcs: seq<Pc>)

  predicate Inside(pc: Pc)
  {
    pc.Visit? || pc.Insert? || pc.Release?
  }

  ghost predicate Init(s: State)
  {
    !s.lock && s.devs == [] && forall t :: 0 <= t < |s.pcs| ==> s.pcs[t] == Idle
  }

  /** The loop body of the three traversals: does this node end the search? */
  predicate Hit(op: Op, d: Device, counter: int)
  {
    match op
    case Register(dev) => dev.name == d.name
    case Find(name) => name == d.name
    case ReadDir(index) => index == counter
  }

  /** One step of thread `t`. */
  ghost predicate Step(s: State, s': State, t: int)
  {
    && 0 <= t < |s.pcs|
    && match s.pcs[t]
       case Idle => exists op :: s' == s.(pcs := s.pcs[t := Spin(op)])
       case Done(_, _, _) => exists op :: s' == s.(pcs := s.pcs[t := Spin(op)])
       // spin_lock: one test-and-set
       case Spin(op) =>
         s' == s.(lock := true, pcs := s.pcs[t := if s.lock then Spin(op) else Visit(op, |s.devs|, |s.devs|)])
       case Visit(op, start, left) =>
         if left == 0 || left > |s.devs| then
           s' == s.(pcs := s.pcs[t := if op.Register? then Insert(op, start) else Release(op, start, NoEntry)])
         else if Hit(op, s.devs[left - 1], start - left) then
           s' == s.(pcs := s.pcs[t := Release(op, start, if op.Register? then NoEntry else Entry(s.devs[left - 1]))])
         else
           s' == s.(pcs := s.pcs[t := Visit(op, start, left - 1)])
       case Insert(op, start) =>
         if op.Register? then
           s' == s.(devs := s.devs + [op.dev], pcs := s.pcs[t := Release(op, start, NoEntry)])
         else s' == s
       // spin_unlock
       case Release(op, start, answer) =>
         s' == s.(lock := false, pcs := s.pcs[t := Done(op, start, answer)])
  }

  // ---- What every reachable state satisfies ----

  /** No two devices share a name. */
  ghost predicate NamesDistinct(devs: seq<Device>)
  {
    forall i, j :: 0 <= i < j < |devs| ==> devs[i].name != devs[j].name
  }

  /** The answer is the right one for the first `start` devices. */
  ghost predicate Correct(op: Op, start: nat, answer: Answer, devs: seq<Device>)
  {
    && start <= |devs|
    && match op
       case Register(dev) => answer == NoEntry && exists i :: 0 <= i < |devs| && devs[i].name == dev.name
       case Find(name) =>
         if answer.Entry? then exists i :: 0 <= i < start && devs[i] == answer.dev && answer.dev.name == name
         else forall i :: 0 <= i < start ==> devs[i].name != name
       case ReadDir(index) => answer == if index < start then Entry(devs[start - 1 - index]) else NoEntry
  }

  /** What a thread may rely on at its program point. */
  ghost predicate At(pc: Pc, devs: seq<Device>)
  {
    match pc
    case Idle => true
    case Spin(_) => true
    case Visit(op, start, left) =>
      left <= start == |devs| && forall k :: left <= k < start ==> !Hit(op, devs[k], start - 1 - k)
    case Insert(op, start) =>
      op.Register? && start == |devs| && forall k :: 0 <= k < start ==> devs[k].name != op.dev.name
    case Release(op, start, answer) => Correct(op, start, answer, devs)
    case Done(op, start, answer) => Correct(op, start, answer, devs)
  }

  ghost predicate Inv(s: State)
  {
    && NamesDistinct(s.devs)
    && (forall t :: 0 <= t < |s.pcs| ==> At(s.pcs[t], s.devs))
    && (forall t, u :: 0 <= t < u < |s.pcs| ==> !(Inside(s.pcs[t]) && Inside(s.pcs[u])))
    && (forall t :: 0 <= t < |s.pcs| && Inside(s.pcs[t]) ==> s.lock)
  }

  /** An answer stays correct while devices are only added. */
  lemma CorrectGrows(op: Op, start: nat, answer: Answer, devs: seq<Device>, dev: Device)
    requires Correct(op, start, answer, devs)
    ensures Correct(op, start, answer, devs + [dev])
  {
    var more := devs + [dev];
    match op
    case Register(d) =>
      var i :| 0 <= i < |devs| && devs[i].name == d.name;
      assert more[i].name == d.name;
    case Find(name) =>
      if answer.Entry? {
        var i :| 0 <= i < start && devs[i] == answer.dev;
        assert more[i] == answer.dev;
      }
    case ReadDir(index) =>
  }

  lemma InitInv(s: State)
    requires Init(s)
    ensures Inv(s)
  {
  }

  /** At most one thread is inside, names stay distinct and answers are correct, whichever thread moves. */
  lemma StepInv(s: State, s': State, t: int)
    requires Inv(s) && Step(s, s', t)
    ensures Inv(s')
  {
    assert At(s.pcs[t], s.devs);
    if s.pcs[t].Insert? {
      var dev := s.pcs[t].op.dev;
      forall u | 0 <= u < |s'.pcs|
        ensures At(s'.pcs[u], s'.devs)
      {
        if u == t {
          assert s'.devs[|s.devs|].name == dev.name;
        } else {
          assert !Inside(s.pcs[u]) && At(s.pcs[u], s.devs);
          if s.pcs[u].Done? {
            CorrectGrows(s.pcs[u].op, s.pcs[u].start, s.pcs[u].answer, s.devs, dev);
          }
        }
      }
    } else {
      assert s'.devs == s.devs;
      assert At(s'.pcs[t], s'.devs);
    }
  }

  // ---- Whole runs ----

  /** From an empty registry, thread `who[k]` makes step `k`. */
  ghost predicate IsRun(run: seq<State>, who: seq<int>)
  {
    && |run| == |who| + 1
    && Init(run[0])
    && forall k :: 0 <= k < |who| ==> Step(run[k], run[k + 1], who[k])
  }

  lemma {:induction false} RunInv(run: seq<State>, who: seq<int>, k: nat)
    requires IsRun(run, who) && k < |run|
    ensures Inv(run[k]) && |run[k].pcs| == |run[0].pcs|
  {
    if k == 0 {
      InitInv(run[0]);
    } else {
      RunInv(run, who, k - 1);
      assert Step(run[k - 1], run[k], who[k - 1]);
      StepInv(run[k - 1], run[k], who[k - 1]);
    }
  }

  /** In every reachable state at most one thread is inside the lock and device names are distinct. */
  lemma {:induction false} MutualExclusion(run: seq<State>, who: seq<int>, k: nat, t: nat, u: nat)
    requires IsRun(run, who) && k < |run| && t < |run[k].pcs| && u < |run[k].pcs|
    ensures Inside(run[k].pcs[t]) && Inside(run[k].pcs[u]) ==> t == u
    ensures NamesDistinct(run[k].devs)
  {
    RunInv(run, who, k);
  }

  predicate Named(devs: seq<Device>, name: string)
  {
    exists i :: 0 <= i < |devs| && devs[i].name == name
  }

  /** The registry after one uninterrupted operation. */
  function Atomic(op: Op, devs: seq<Device>): seq<Device>
  {
    if op.Register? && !Named(devs, op.dev.name) then devs + [op.dev] else devs
  }

  /** The answer of one uninterrupted operation. */
  ghost predicate Answered(op: Op, devs: seq<Device>, answer: Answer)
  {
    match op
    case Register(dev) => answer == NoEntry
    case Find(name) =>
      if Named(devs, name) then answer.Entry? && answer.dev in devs && answer.dev.name == name else answer == NoEntry
    case ReadDir(index) => answer == if index < |devs| then Entry(devs[|devs| - 1 - index]) else NoEntry
  }

  /** A thread inside the lock stands between `before`, the registry at its lock, and its effect. */
  ghost predicate Between(pc: Pc, before: seq<Device>, devs: seq<Device>)
  {
    match pc
    case Visit(op, start, _) => start == |before| && devs == before
    case Insert(op, start) => start == |before| && devs == before
    case Release(op, start, answer) => devs == Atomic(op, before) && Answered(op, before, answer)
    case _ => true
  }

  /** The holder's own step keeps it between its lock and its effect. */
  lemma HolderStep(s: State, s': State, t: int, before: seq<Device>)
    requires Inv(s) && Step(s, s', t) && Inside(s.pcs[t]) && Between(s.pcs[t], before, s.devs)
    ensures |s'.pcs| == |s.pcs|
    ensures !s.pcs[t].Release? ==> Inside(s'.pcs[t]) && s'.pcs[t].op == s.pcs[t].op
    ensures Between(s'.pcs[t], before, s'.devs)
    ensures s.pcs[t].Release? ==>
      && s'.devs == s.devs == Atomic(s.pcs[t].op, before)
      && s'.pcs[t] == Done(s.pcs[t].op, s.pcs[t].start, s.pcs[t].answer)
  {
    assert At(s.pcs[t], s.devs);
    match s.pcs[t]
    case Visit(op, start, left) =>
      if left != 0 && Hit(op, s.devs[left - 1], start - left) {
        assert s.devs[left - 1] in s.devs;
      }
    case Insert(op, start) =>
    case Release(op, start, answer) =>
  }

  /** A step of another thread leaves the holder and the devices alone. */
  lemma OtherStep(s: State, s': State, t: int, u: int)
    requires Inv(s) && Step(s, s', u) && 0 <= t < |s.pcs| && t != u && Inside(s.pcs[t])
    ensures |s'.pcs| == |s.pcs| && s'.pcs[t] == s.pcs[t] && s'.devs == s.devs
    ensures !Inside(s'.pcs[u])
  {
    assert !Inside(s.pcs[u]) && s.lock;
  }

  /** With nobody inside, only taking the lock lets a thread in, and it starts from the registry as it is. */
  lemma EntryStep(s: State, s': State, u: int)
    requires Step(s, s', u) && !Inside(s.pcs[u])
    ensures |s'.pcs| == |s.pcs| && s'.devs == s.devs && Between(s'.pcs[u], s.devs, s'.devs)
    ensures forall v :: 0 <= v < |s.pcs| && v != u ==> s'.pcs[v] == s.pcs[v]
    ensures Inside(s'.pcs[u]) ==> s.pcs[u].Spin? && s'.pcs[u].op == s.pcs[u].op
  {
  }

  /** Thread `t` takes the lock at step `k` and is inside up to state `m`. */
  ghost predicate Holds(run: seq<State>, t: int, k: nat, m: nat)
  {
    && k < m < |run| && 0 <= t < |run[0].pcs|
    && (forall j :: 0 <= j < |run| ==> |run[j].pcs| == |run[0].pcs|)
    && run[k].pcs[t].Spin?
    && (forall j :: k < j <= m ==> Inside(run[j].pcs[t]))
  }

  lemma StepInRange(s: State, s': State, t: int)
    requires Step(s, s', t)
    ensures 0 <= t < |s.pcs| == |s'.pcs|
    ensures forall v :: 0 <= v < |s.pcs| && v != t ==> s'.pcs[v] == s.pcs[v]
  {
  }

  lemma EntryOf(s: State, s': State, t: int, u: int)
    requires Step(s, s', u) && 0 <= t < |s.pcs| == |s'.pcs| && s.pcs[t].Spin? && Inside(s'.pcs[t])
    ensures s'.pcs[t].op == s.pcs[t].op && Between(s'.pcs[t], s.devs, s'.devs)
  {
    hide Step;
    StepInRange(s, s', u);
    assert t == u;
    EntryStep(s, s', u);
  }

  lemma {:induction false} HeldBetween(run: seq<State>, who: seq<int>, t: int, k: nat, m: nat)
    requires IsRun(run, who) && Holds(run, t, k, m)
    ensures run[m].pcs[t].op == run[k].pcs[t].op
    ensures Between(run[m].pcs[t], run[k].devs, run[m].devs)
    decreases m
  {
    hide Step, Inv, At, Between;
    RunInv(run, who, m - 1);
    assert Step(run[m - 1], run[m], who[m - 1]);
    if m == k + 1 {
      StepInRange(run[k], run[m], who[k]);
      EntryOf(run[k], run[m], t, who[k]);
    } else {
      HeldBetween(run, who, t, k, m - 1);
      if who[m - 1] == t {
        HolderStep(run[m - 1], run[m], t, run[k].devs);
      } else {
        OtherStep(run[m - 1], run[m], t, who[m - 1]);
      }
    }
  }

  /**
    However the threads interleave, a finished call has the answer and the effect of one
    uninterrupted execution at the moment its lock was taken; in particular a lookup returns a
    device exactly when that name was registered before.
   */
  lemma {:induction false} CallIsAtomic(run: seq<State>, who: seq<int>, t: int, k: nat, m: nat)
    requires IsRun(run, who) && Holds(run, t, k, m) && m + 1 < |run| && run[m + 1].pcs[t].Done?
    ensures run[m + 1].pcs[t].op == run[k].pcs[t].op
    ensures Answered(run[k].pcs[t].op, run[k].devs, run[m + 1].pcs[t].answer)
    ensures run[m + 1].devs == Atomic(run[k].pcs[t].op, run[k].devs)
    // Registering a name that is new adds the device, and nothing else changes the registry.
    ensures var op, devs := run[k].pcs[t].op, run[k].devs;
      run[m + 1].devs == if op.Register? && (forall i :: 0 <= i < |devs| ==> devs[i].name != op.dev.name)
        then devs + [op.dev] else devs
    ensures run[k].pcs[t].op.Find? ==>
      (run[m + 1].pcs[t].answer.Entry? <==> Named(run[k].devs, run[k].pcs[t].op.name))
  {
    HeldBetween(run, who, t, k, m);
    RunInv(run, who, m);
    assert Step(run[m], run[m + 1], who[m]);
    if who[m] == t {
      HolderStep(run[m], run[m + 1], t, run[k].devs);
    } else {
      OtherStep(run[m], run[m + 1], t, who[m]);
      assert false;
    }
  }

  // ---- Progress ----

  /** The steps a thread inside the lock has left, at most. */
  function Remaining(pc: Pc): nat
  {
    match pc
    case Visit(_, _, left) => left + 3
    case Insert(_, _) => 2
    case Release(_, _, _) => 1
    case _ => 0
  }

  /** Each own step brings the holder nearer to its end, which is the answer to the same call. */
  lemma HolderAdvances(s: State, s': State, t: int)
    requires Inv(s) && Step(s, s', t) && Inside(s.pcs[t])
    ensures |s'.pcs| == |s.pcs| && Remaining(s'.pcs[t]) < Remaining(s.pcs[t])
    ensures Inside(s'.pcs[t]) || s'.pcs[t].Done?
  {
    assert At(s.pcs[t], s.devs);
  }

  /** A thread that tries while nobody is inside gets the lock at once, and starts at the front of the list. */
  lemma SpinnerEnters(run: seq<State>, who: seq<int>, k: nat)
    requires IsRun(run, who) && k < |who| && 0 <= who[k] < |run[k].pcs| && run[k].pcs[who[k]].Spin? && Free(run[k])
    ensures |run[k + 1].pcs| == |run[k].pcs|
    ensures run[k + 1].pcs[who[k]] == Visit(run[k].pcs[who[k]].op, |run[k].devs|, |run[k].devs|)
  {
    LockHasHolder(run, who, k);
    assert Step(run[k], run[k + 1], who[k]);
  }

  /** How many of the steps k to m - 1 thread `t` makes. */
  function Turns(who: seq<int>, t: int, k: nat, m: nat): nat
    requires k <= m <= |who|
    decreases m - k
  {
    if k == m then 0 else (if who[k] == t then 1 else 0) + Turns(who, t, k + 1, m)
  }

  /**
    A thread inside the lock has finished its call once it has made as many steps as it had left,
    whatever the others do: a traversal of n devices takes n + 3 at most.
   */
  lemma {:induction false} HolderFinishes(run: seq<State>, who: seq<int>, t: nat, k: nat, m: nat) returns (j: nat)
    requires IsRun(run, who) && k <= m <= |who| && t < |run[k].pcs| && Inside(run[k].pcs[t])
    requires Turns(who, t, k, m) >= Remaining(run[k].pcs[t])
    ensures k < j <= m && t < |run[j].pcs| && run[j].pcs[t].Done?
    decreases m - k
  {
    hide Step, Inv, At;
    RunInv(run, who, k);
    assert Step(run[k], run[k + 1], who[k]);
    StepInRange(run[k], run[k + 1], who[k]);
    if who[k] == t {
      HolderAdvances(run[k], run[k + 1], t);
    } else {
      OtherStep(run[k], run[k + 1], t, who[k]);
    }
    if run[k + 1].pcs[t].Done? {
      j := k + 1;
    } else {
      j := HolderFinishes(run, who, t, k + 1, m);
    }
  }

  // ---- One order for all calls ----

  /** The operations whose locks were released in the first `k` steps, in that order. */
  ghost function Released(run: seq<State>, who: seq<int>, k: nat): seq<Op>
    requires IsRun(run, who) && k < |run|
  {
    if k == 0 then []
    else
      var rest := Released(run, who, k - 1);
      assert Step(run[k - 1], run[k], who[k - 1]);
      var pc := run[k - 1].pcs[who[k - 1]];
      if pc.Release? then rest + [pc.op] else rest
  }

  /** The registry after running the operations one after the other. */
  function Replay(ops: seq<Op>): seq<Device>
  {
    if ops == [] then [] else Atomic(ops[|ops| - 1], Replay(ops[..|ops| - 1]))
  }

  lemma ReplayMore(ops: seq<Op>, op: Op)
    ensures Replay(ops + [op]) == Atomic(op, Replay(ops))
  {
    assert (ops + [op])[..|ops|] == ops;
  }

  ghost predicate Free(s: State)
  {
    forall t :: 0 <= t < |s.pcs| ==> !Inside(s.pcs[t])
  }

  lemma LockStep(s: State, s': State, t: int)
    requires Inv(s) && Step(s, s', t) && (s.lock <==> !Free(s))
    ensures s'.lock <==> !Free(s')
  {
    if s.pcs[t].Release? {
      forall v | 0 <= v < |s'.pcs|
        ensures !Inside(s'.pcs[v])
      {
        assert v != t ==> s'.pcs[v] == s.pcs[v] && !Inside(s.pcs[v]);
      }
    } else if Inside(s.pcs[t]) {
      assert Inside(s'.pcs[t]);
    } else if v :| 0 <= v < |s.pcs| && Inside(s.pcs[v]) {
      assert v != t && s'.pcs[v] == s.pcs[v] && Inside(s'.pcs[v]);
    } else {
      assert forall v :: 0 <= v < |s.pcs| && v != t ==> s'.pcs[v] == s.pcs[v];
      assert Inside(s'.pcs[t]) <==> s'.lock;
    }
  }

  /** The lock word is set exactly while some thread is inside: it is never leaked and never released early. */
  lemma {:induction false} LockHasHolder(run: seq<State>, who: seq<int>, k: nat)
    requires IsRun(run, who) && k < |run|
    ensures run[k].lock <==> !Free(run[k])
  {
    hide Step, Inv;
    if k > 0 {
      LockHasHolder(run, who, k - 1);
      RunInv(run, who, k - 1);
      assert Step(run[k - 1], run[k], who[k - 1]);
      LockStep(run[k - 1], run[k], who[k - 1]);
    }
  }

  lemma AtMostOne(run: seq<State>, who: seq<int>, k: nat)
    requires IsRun(run, who) && k < |run|
    ensures forall t, u :: 0 <= t < u < |run[k].pcs| ==> !(Inside(run[k].pcs[t]) && Inside(run[k].pcs[u]))
  {
    RunInv(run, who, k);
  }

  /**
    The order of releases explains the whole run: with the lock free the registry is what the
    released operations give when run one after the other, and the holder, if any, stands between
    that registry and its own effect.
   */
  lemma {:induction false} Serializable(run: seq<State>, who: seq<int>, k: nat)
    requires IsRun(run, who) && k < |run|
    ensures Free(run[k]) ==> run[k].devs == Replay(Released(run, who, k))
    ensures forall t :: 0 <= t < |run[k].pcs| && Inside(run[k].pcs[t]) ==>
      Between(run[k].pcs[t], Replay(Released(run, who, k)), run[k].devs)
  {
    hide Step, Inv, At, Between;
    if k > 0 {
      Serializable(run, who, k - 1);
      RunInv(run, who, k - 1);
      var s, s', u := run[k - 1], run[k], who[k - 1];
      assert Step(s, s', u);
      StepInRange(s, s', u);
      AtMostOne(run, who, k - 1);
      AtMostOne(run, who, k);
      var before := Released(run, who, k - 1);
      if t :| 0 <= t < |s.pcs| && Inside(s.pcs[t]) {
        if t == u {
          HolderStep(s, s', t, Replay(before));
          if s.pcs[t].Release? {
            ReplayMore(before, s.pcs[t].op);
            forall v | 0 <= v < |s'.pcs|
              ensures !Inside(s'.pcs[v])
            {
              assert v != t ==> s'.pcs[v] == s.pcs[v];
            }
          } else {
            assert forall v :: 0 <= v < |s'.pcs| && Inside(s'.pcs[v]) ==> v == t;
          }
        } else {
          OtherStep(s, s', t, u);
          assert forall v :: 0 <= v < |s'.pcs| && Inside(s'.pcs[v]) ==> v == t;
        }
      } else {
        assert Free(s);
        EntryStep(s, s', u);
      }
    }
  }
}
