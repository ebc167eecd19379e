/** The single-slot blocking cell, at the level of its mutex and its condition variable. Any number
    of threads call post, get and try_get; each statement between two lock operations is one step. */
module WaitableValue {

  datatype Option<+T> = None | Some(value: T)

  type Tid = int

  datatype Op<T> = Post(value: T) | Get | TryGet

  /** Where a thread is inside a call. */
  datatype Pc<T> =
    | Outside
    | Locking(op: Op<T>)                        // waiting for the mutex on entry
    | Testing(op: Op<T>)                        // holds the mutex, at the loop condition
    | Sleeping(op: Op<T>)                       // inside wait: mutex given up, on the condition variable
    | Woken(op: Op<T>, timedOut: bool)          // wait is over, the mutex must be taken back
    | Notifying(op: Op<T>, result: Option<T>)   // holds the mutex, slot changed, notify_all still to come
    | Leaving(op: Op<T>, result: Option<T>)     // holds the mutex, about to return

  predicate Holds<T>(pc: Pc<T>) {
    pc.Testing? || pc.Notifying? || pc.Leaving?
  }

  predicate Takes<T>(op: Op<T>) {
    op.Get? || op.TryGet?
  }

  /** `posted` and `got` record every value stored and taken so far. */
  datatype State<T> = State(lock: Option<Tid>, slot: Option<T>, pcs: map<Tid, Pc<T>>, posted: seq<T>, got: seq<T>) {
    function At(t: Tid): Pc<T> {
      if t in pcs then pcs[t] else Outside
    }

    function Put(t: Tid, pc: Pc<T>): State<T> {
      this.(pcs := pcs[t := pc])
    }
  }

  datatype Action<T> =
    | Call(t: Tid, op: Op<T>)
    | Acquire(t: Tid)
    | Test(t: Tid)
    | NotifyAll(t: Tid)
    | Return(t: Tid)
    | Spurious(t: Tid)   // the condition variable may wake a sleeper for no reason
    | Timeout(t: Tid)    // the wait of a try_get runs out, asleep or while it waits for the mutex

  predicate Enabled<T>(s: State<T>, a: Action<T>) {
    match a
    case Call(t, _) => s.At(t).Outside?
    case Acquire(t) => s.lock.None? && (s.At(t).Locking? || s.At(t).Woken?)
    case Test(t) => s.At(t).Testing?
    case NotifyAll(t) => s.At(t).Notifying?
    case Return(t) => s.At(t).Leaving?
    case Spurious(t) => s.At(t).Sleeping?
    case Timeout(t) => (s.At(t).Sleeping? || (s.At(t).Woken? && !s.At(t).timedOut)) && s.At(t).op.TryGet?
  }

  function WakeAll<T>(pcs: map<Tid, Pc<T>>): map<Tid, Pc<T>> {
    map t | t in pcs :: if pcs[t].Sleeping? then Woken(pcs[t].op, false) else pcs[t]
  }

  function Apply<T>(s: State<T>, a: Action<T>): State<T>
    requires Enabled(s, a)
  {
    match a
    case Call(t, op) => s.Put(t, Locking(op))
    case Acquire(t) =>
      var pc := s.At(t);
      var next := if pc.Woken? && pc.timedOut then Leaving(pc.op, None) else Testing(pc.op);
      s.Put(t, next).(lock := Some(t))
    case Test(t) =>
      var op := s.At(t).op;
      if op.Post? then
        if s.slot.Some? then s.Put(t, Sleeping(op)).(lock := None)
        else s.Put(t, Notifying(op, None)).(slot := Some(op.value), posted := s.posted + [op.value])
      else
        if s.slot.None? then s.Put(t, Sleeping(op)).(lock := None)
        else s.Put(t, Notifying(op, s.slot)).(slot := None, got := s.got + [s.slot.value])
    case NotifyAll(t) =>
      var pc := s.At(t);
      s.(pcs := WakeAll(s.pcs)).Put(t, Leaving(pc.op, pc.result))
    case Return(t) => s.Put(t, Outside).(lock := None)
    case Spurious(t) => s.Put(t, Woken(s.At(t).op, false))
    case Timeout(t) => s.Put(t, Woken(s.At(t).op, true))
  }

  ghost predicate Init<T>(s: State<T>) {
    s == State(None, None, map[], [], [])
  }

  /** A run: any interleaving of enabled steps from the initial state. */
  ghost predicate Execution<T>(states: seq<State<T>>, actions: seq<Action<T>>) {
    && |states| == |actions| + 1 && Init(states[0])
    && forall i :: 0 <= i < |actions| ==> Enabled(states[i], actions[i]) && states[i + 1] == Apply(states[i], actions[i])
  }

  function Contents<T>(slot: Option<T>): seq<T> {
    if slot.Some? then [slot.value] else []
  }

  ghost predicate LockInv<T>(s: State<T>) {
    forall t :: Holds(s.At(t)) <==> s.lock == Some(t)
  }

  /** The sleepers are those whose condition is false, except while the thread that changed the slot
      still has its notification to send. */
  ghost predicate SleepInv<T>(s: State<T>) {
    (forall t :: !s.At(t).Notifying?) ==>
      forall t :: s.At(t).Sleeping? ==> (if Takes(s.At(t).op) then s.slot.None? else s.slot.Some?)
  }

  /** A get about to return carries a value and a post none. */
  ghost predicate ResultInv<T>(s: State<T>) {
    forall t :: var pc := s.At(t);
      && (pc.Notifying? ==> (Takes(pc.op) <==> pc.result.Some?))
      && (pc.Leaving? && pc.op.Get? ==> pc.result.Some?)
      && (pc.Leaving? && pc.op.Post? ==> pc.result.None?)
      && (pc.Woken? && pc.timedOut ==> pc.op.TryGet?)
  }

  ghost predicate Inv<T>(s: State<T>) {
    && LockInv(s) && SleepInv(s) && ResultInv(s)
    && s.got + Contents(s.slot) == s.posted
  }

  lemma StepKeepsLock<T>(s: State<T>, a: Action<T>)
    requires Inv(s) && Enabled(s, a)
    ensures LockInv(Apply(s, a))
  {
    var s' := Apply(s, a);
    forall t
      ensures Holds(s'.At(t)) <==> s'.lock == Some(t)
    {
      assert Holds(s.At(t)) <==> s.lock == Some(t);
      assert Holds(s.At(a.t)) <==> s.lock == Some(a.t);
    }
  }

  lemma StepKeepsSleep<T>(s: State<T>, a: Action<T>)
    requires Inv(s) && Enabled(s, a)
    ensures SleepInv(Apply(s, a))
  {
    var s' := Apply(s, a);
    var u := a.t;
    assert Holds(s.At(u)) <==> s.lock == Some(u);
    if forall t :: !s'.At(t).Notifying? {
      assert !s'.At(u).Notifying?;
      if a.NotifyAll? {
        assert forall t :: !s'.At(t).Sleeping?;
      } else {
        forall t
          ensures !s.At(t).Notifying?
        {
          assert !s'.At(t).Notifying?;
          assert t != u ==> s.At(t) == s'.At(t);
        }
        forall t | s'.At(t).Sleeping?
          ensures if Takes(s'.At(t).op) then s'.slot.None? else s'.slot.Some?
        {
          assert t != u ==> s.At(t) == s'.At(t);
        }
      }
    }
  }

  lemma StepKeepsResult<T>(s: State<T>, a: Action<T>)
    requires Inv(s) && Enabled(s, a)
    ensures ResultInv(Apply(s, a))
  {
    var s' := Apply(s, a);
    forall t
      ensures var pc := s'.At(t);
        && (pc.Notifying? ==> (Takes(pc.op) <==> pc.result.Some?))
        && (pc.Leaving? && pc.op.Get? ==> pc.result.Some?)
        && (pc.Leaving? && pc.op.Post? ==> pc.result.None?)
        && (pc.Woken? && pc.timedOut ==> pc.op.TryGet?)
    {
      var pc := s.At(t);
      assert pc.Notifying? ==> (Takes(pc.op) <==> pc.result.Some?);
      assert t != a.t && !a.NotifyAll? ==> s'.At(t) == pc;
    }
  }

  /** What a step does to the abstract one-place cell: nothing, one store into an empty cell by a
      post, or one removal of the value held by a call that will return it. */
  ghost predicate CellStep<T>(s: State<T>, a: Action<T>, s': State<T>)
    requires Enabled(s, a)
  {
    || (s'.slot == s.slot && s'.posted == s.posted && s'.got == s.got)
    || (&& a.Test? && s.At(a.t).op.Post? && s.slot.None?
        && s'.slot == Some(s.At(a.t).op.value) && s'.posted == s.posted + [s.At(a.t).op.value] && s'.got == s.got)
    || (&& a.Test? && Takes(s.At(a.t).op) && s.slot.Some?
        && s'.slot.None? && s'.got == s.got + [s.slot.value] && s'.posted == s.posted
        && s'.At(a.t).Notifying? && s'.At(a.t).result == s.slot)
  }

  lemma StepRefinesCell<T>(s: State<T>, a: Action<T>)
    requires Inv(s) && Enabled(s, a)
    ensures CellStep(s, a, Apply(s, a))
    ensures Apply(s, a).got + Contents(Apply(s, a).slot) == Apply(s, a).posted
  {
    var s' := Apply(s, a);
    if a.Test? && s'.posted != s.posted {
      assert Contents(s.slot) == [];
      assert s'.got + Contents(s'.slot) == s.got + [] + [s.At(a.t).op.value];
    }
  }

  lemma {:induction false} ExecutionInv<T>(states: seq<State<T>>, actions: seq<Action<T>>, i: nat)
    requires Execution(states, actions) && i < |states|
    ensures Inv(states[i])
  {
    if i > 0 {
      ExecutionInv(states, actions, i - 1);
      var s, a := states[i - 1], actions[i - 1];
      assert Enabled(s, a) && states[i] == Apply(s, a);
      StepKeepsLock(s, a);
      StepKeepsSleep(s, a);
      StepKeepsResult(s, a);
      StepRefinesCell(s, a);
    }
  }

  /** In every run, the values taken followed by the slot are the values posted, in order: no post
      overwrites and no timed-out try_get drops anything. */
  lemma CellIsFifo<T>(states: seq<State<T>>, actions: seq<Action<T>>, i: nat)
    requires Execution(states, actions) && i < |states|
    ensures states[i].got + Contents(states[i].slot) == states[i].posted
    ensures i < |actions| ==> CellStep(states[i], actions[i], states[i + 1])
  {
    ExecutionInv(states, actions, i);
    if i < |actions| {
      StepRefinesCell(states[i], actions[i]);
    }
  }

  /** In every run, whenever the mutex is free a sleeping getter means an empty slot and a sleeping
      poster a full one; so both never sleep at once. */
  lemma NoLostWakeup<T>(states: seq<State<T>>, actions: seq<Action<T>>, i: nat, t: Tid, u: Tid)
    requires Execution(states, actions) && i < |states| && states[i].lock.None?
    ensures states[i].At(t).Sleeping? ==>
              (states[i].slot.None? <==> Takes(states[i].At(t).op))
    ensures states[i].At(t).Sleeping? && states[i].At(u).Sleeping? ==>
              (Takes(states[i].At(t).op) <==> Takes(states[i].At(u).op))
  {
    ExecutionInv(states, actions, i);
    var s := states[i];
    forall v
      ensures !s.At(v).Notifying?
    {
      assert Holds(s.At(v)) <==> s.lock == Some(v);
    }
  }

  /** The thread that can move next when some thread is inside a call and awake. */
  ghost function Mover<T>(s: State<T>, t: Tid): Action<T> {
    var u := if s.lock.Some? then s.lock.value else t;
    match s.At(u)
    case Testing(_) => Test(u)
    case Notifying(_, _) => NotifyAll(u)
    case Leaving(_, _) => Return(u)
    case _ => Acquire(u)
  }

  /** In every run, as long as one thread inside a call is awake, some thread can take a step of its
      own; so a stuck state has only sleepers, all getters on an empty slot or all posters on a full one. */
  lemma AwakeMeansProgress<T>(states: seq<State<T>>, actions: seq<Action<T>>, i: nat, t: Tid)
    requires Execution(states, actions) && i < |states|
    requires !states[i].At(t).Outside? && !states[i].At(t).Sleeping?
    ensures Enabled(states[i], Mover(states[i], t))
  {
    ExecutionInv(states, actions, i);
    var s := states[i];
    var u := if s.lock.Some? then s.lock.value else t;
    assert Holds(s.At(u)) <==> s.lock == Some(u);
  }

  // ---------------------------------------------------------------------
  // What a call returns
  // ---------------------------------------------------------------------

  /** The thread has taken this value and has not returned yet. */
  predicate Carries<T(==)>(pc: Pc<T>, v: T) {
    (pc.Notifying? || pc.Leaving?) && Takes(pc.op) && pc.result == Some(v)
  }

  lemma CarriesFrom<T>(s: State<T>, a: Action<T>, t: Tid, v: T)
    requires Inv(s) && Enabled(s, a) && Carries(Apply(s, a).At(t), v)
    requires a != Test(t)
    ensures Carries(s.At(t), v) && s.At(t).op == Apply(s, a).At(t).op && Apply(s, a).got == s.got
  {
    assert Holds(s.At(a.t)) <==> s.lock == Some(a.t);
    assert Holds(s.At(t)) <==> s.lock == Some(t);
  }

  /** In every run a value that a get or try_get is about to return was in the slot when that very call
      found it full, at step `j`, and it is the last value anyone took. */
  lemma {:induction false} ReturnsWhatItTook<T>(states: seq<State<T>>, actions: seq<Action<T>>, i: nat, t: Tid, v: T)
    returns (j: nat)
    requires Execution(states, actions) && i < |states| && Carries(states[i].At(t), v)
    ensures j < i && actions[j] == Test(t)
    ensures states[j].At(t) == Testing(states[i].At(t).op) && states[j].slot == Some(v)
    ensures states[i].got == states[j].got + [v]
    ensures forall k :: j < k <= i ==> Carries(states[k].At(t), v)
  {
    assert i > 0;
    var s, a := states[i - 1], actions[i - 1];
    assert Enabled(s, a) && states[i] == Apply(s, a);
    ExecutionInv(states, actions, i - 1);
    if a == Test(t) {
      j := i - 1;
    } else {
      CarriesFrom(s, a, t, v);
      j := ReturnsWhatItTook(states, actions, i - 1, t, v);
    }
  }

  lemma NotifyingCarries<T>(s: State<T>, t: Tid)
    requires Inv(s)
    ensures s.At(t).Notifying? ==> (Takes(s.At(t).op) <==> s.At(t).result.Some?)
  {
  }

  /** In every run a call is about to return without a value exactly when it is a post, or a try_get
      whose wait had run out when it got the mutex back; that try_get changed nothing. */
  lemma {:induction false} EmptyHandedOnlyOnTimeout<T>(states: seq<State<T>>, actions: seq<Action<T>>, i: nat, t: Tid)
    returns (j: nat)
    requires Execution(states, actions) && i < |states|
    requires states[i].At(t).Leaving? && states[i].At(t).result.None? && !states[i].At(t).op.Post?
    ensures j < i && states[i].At(t).op.TryGet? && actions[j] == Acquire(t)
    ensures states[j].At(t) == Woken(TryGet, true)
    ensures states[i].slot == states[j].slot && states[i].got == states[j].got && states[i].posted == states[j].posted
  {
    ExecutionInv(states, actions, i);
    assert i > 0;
    var s, a := states[i - 1], actions[i - 1];
    assert Enabled(s, a) && states[i] == Apply(s, a);
    ExecutionInv(states, actions, i - 1);
    assert Holds(s.At(a.t)) <==> s.lock == Some(a.t);
    assert Holds(s.At(t)) <==> s.lock == Some(t);
    NotifyingCarries(s, t);
    if a == Acquire(t) {
      j := i - 1;
    } else {
      j := EmptyHandedOnlyOnTimeout(states, actions, i - 1, t);
    }
  }

  /** In every run a try_get that gets the mutex back after its wait ran out returns without a value, also
      when one has come in the meantime; any other waiter tests the slot again. */
  lemma TimeoutReturnsNothing<T>(states: seq<State<T>>, actions: seq<Action<T>>, i: nat, t: Tid)
    requires Execution(states, actions) && i < |actions| && actions[i] == Acquire(t)
    ensures var pc, next := states[i].At(t), states[i + 1].At(t);
            && (pc.Woken? && pc.timedOut ==> next == Leaving(pc.op, None))
            && (pc.Woken? && !pc.timedOut ==> next == Testing(pc.op))
            && (pc.Locking? ==> next == Testing(pc.op))
  {
    assert Enabled(states[i], actions[i]) && states[i + 1] == Apply(states[i], actions[i]);
  }
}
