/** The producer-consumer queue as a protocol: any number of threads, one mutex, two condition
    variables, interleaved one statement at a time.

    A thread that sleeps on a condition variable may be woken by a broadcast, by its deadline or
    for no reason at all; when it has the lock again, the wait may report that the deadline
    passed (only `queue_remove` has a deadline). `appended` and `removed` record the values in
    the order in which the critical sections count them in and out. */
module MonitorQueue {
  import opened Ring
  import opened Wrappers

  datatype Op = Append(x: int) | TryAppend(x: int) | Remove

  datatype Outcome = Stored | Full | Got(v: int) | Empty

  /** Where a thread is. From `Testing` to `Leaving` it holds the mutex. */
  datatype Pc =
    | Idle
    | Entering(op: Op)    // at gpr_mu_lock or gpr_mu_trylock
    | Testing(op: Op)     // at the loop condition, or at the `if` of queue_try_append
    | Asleep(op: Op)      // inside gpr_cv_wait, mutex released
    | Relocking(op: Op)   // inside gpr_cv_wait, woken, before it has the mutex again
    | Checking(op: Op)    // at `if (q->length != 0)` after the loop of queue_remove
    | Waking(op: Op)      // at the `if` around the broadcast
    | Storing(op: Op)
    | Growing(op: Op)
    | Reading(op: Op)
    | Advancing(op: Op, v: int)
    | Shrinking(op: Op, v: int)
    | Leaving(op: Op, outcome: Outcome)  // at gpr_mu_unlock

  datatype State = State(
    ring: Ring,
    holder: Option<nat>,
    pc: map<nat, Pc>,
    appended: seq<int>,
    removed: seq<int>)

  /** What the scheduler and the environment pick for the thread that moves. */
  datatype Choice =
    | Call(op: Op)  // an idle thread calls an operation
    | Go            // the next statement of the code
    | Balk          // gpr_mu_trylock fails
    | Rouse         // a sleeper wakes without a broadcast
    | Expire        // gpr_cv_wait returns "deadline exceeded"

  /** The argument of an append. */
  function Payload(op: Op): int {
    match op
    case Append(x) => x
    case TryAppend(x) => x
    case Remove => 0
  }

  predicate HoldsLock(pc: Pc) {
    pc.Testing? || pc.Checking? || pc.Waking? || pc.Storing? || pc.Growing? || pc.Reading?
    || pc.Advancing? || pc.Shrinking? || pc.Leaving?
  }

  predicate SleepsNonEmpty(pc: Pc) { pc.Asleep? && pc.op.Remove? }

  predicate SleepsNonFull(pc: Pc) { pc.Asleep? && !pc.op.Remove? }

  // ---------------------------------------------------------------- the steps

  function Move(s: State, t: nat, next: Pc): State {
    s.(pc := s.pc[t := next])
  }

  function Acquire(s: State, t: nat, next: Pc): State {
    s.(pc := s.pc[t := next], holder := Some(t))
  }

  function Release(s: State, t: nat, next: Pc): State {
    s.(pc := s.pc[t := next], holder := None)
  }

  /** gpr_cv_broadcast(&q->non_empty): every sleeper of that kind must fight for the mutex. */
  function WakeRemovers(pc: map<nat, Pc>): map<nat, Pc> {
    map u | u in pc :: if SleepsNonEmpty(pc[u]) then Relocking(pc[u].op) else pc[u]
  }

  /** gpr_cv_broadcast(&q->non_full). */
  function WakeAppenders(pc: map<nat, Pc>): map<nat, Pc> {
    map u | u in pc :: if SleepsNonFull(pc[u]) then Relocking(pc[u].op) else pc[u]
  }

  /** The loop condition, and what follows when it is false. */
  function Test(s: State, t: nat, op: Op): State {
    match op
    case Append(_) =>
      if s.ring.length == |s.ring.elem| then Release(s, t, Asleep(op)) else Move(s, t, Waking(op))
    case TryAppend(_) =>
      if s.ring.length == |s.ring.elem| then Move(s, t, Leaving(op, Full)) else Move(s, t, Waking(op))
    case Remove =>
      if s.ring.length == 0 then Release(s, t, Asleep(op)) else Move(s, t, Checking(op))
  }

  function Wake(s: State, t: nat, op: Op): State {
    match op
    case Remove =>
      Move(if s.ring.length == |s.ring.elem| then s.(pc := WakeAppenders(s.pc)) else s, t, Reading(op))
    case _ =>
      Move(if s.ring.length == 0 then s.(pc := WakeRemovers(s.pc)) else s, t, Storing(op))
  }

  /** One statement of a thread that holds the mutex. */
  function Inside(s: State, t: nat, pc: Pc): State
    requires HoldsLock(pc) && s.ring.Valid()
  {
    match pc
    case Testing(op) => Test(s, t, op)
    case Checking(op) =>
      Move(s, t, if s.ring.length != 0 then Waking(op) else Leaving(op, Empty))
    case Waking(op) => Wake(s, t, op)
    case Storing(op) => Move(s.(ring := s.ring.Store(Payload(op))), t, Growing(op))
    case Growing(op) =>
      Move(s.(ring := s.ring.Grow(), appended := s.appended + [Payload(op)]), t, Leaving(op, Stored))
    case Reading(op) => Move(s, t, Advancing(op, s.ring.elem[s.ring.head]))
    case Advancing(op, v) => Move(s.(ring := s.ring.Advance()), t, Shrinking(op, v))
    case Shrinking(op, v) =>
      if s.ring.length == 0 then s  // never reached, see `Safe`
      else Move(s.(ring := s.ring.Shrink(), removed := s.removed + [v]), t, Leaving(op, Got(v)))
    case Leaving(_, _) => Release(s, t, Idle)
  }

  /** One step of thread `t`, or nothing when the choice is not open to it. */
  function Step(s: State, t: nat, c: Choice): Option<State>
    requires s.ring.Valid()
  {
    if t !in s.pc then None
    else match (s.pc[t], c)
      case (Idle, Call(op)) => Some(Move(s, t, Entering(op)))
      case (Entering(op), Go) => if s.holder.None? then Some(Acquire(s, t, Testing(op))) else None
      case (Entering(op), Balk) => if op.TryAppend? then Some(Move(s, t, Idle)) else None
      case (Asleep(op), Rouse) => Some(Move(s, t, Relocking(op)))
      case (Relocking(op), Go) => if s.holder.None? then Some(Acquire(s, t, Testing(op))) else None
      case (Relocking(op), Expire) =>
        if s.holder.None? && op.Remove? then Some(Acquire(s, t, Checking(op))) else None
      case (pc, Go) => if HoldsLock(pc) then Some(Inside(s, t, pc)) else None
      case _ => None
  }

  /** queue_init with an arbitrary array behind it, and a set of threads that have not started. */
  ghost predicate Init(s: State) {
    && s.ring.Valid() && s.ring.head == 0 && s.ring.length == 0
    && s.holder == None
    && (forall t | t in s.pc :: s.pc[t] == Idle)
    && s.appended == [] && s.removed == []
  }

  /** `s'` is reached from `s` by letting the listed threads move with the listed choices. */
  ghost predicate Runs(s: State, schedule: seq<(nat, Choice)>, s': State)
    decreases |schedule|
  {
    if schedule == [] then s == s'
    else
      var last := schedule[|schedule| - 1];
      exists mid: State :: Runs(s, schedule[..|schedule| - 1], mid) && Leads(mid, last, s')
  }

  ghost predicate Leads(mid: State, move: (nat, Choice), s': State) {
    mid.ring.Valid() && Step(mid, move.0, move.1) == Some(s')
  }

  // ---------------------------------------------------------------- what every state keeps

  /** The mutex: exactly the holder is between lock and unlock. */
  ghost predicate Exclusive(s: State) {
    && (s.holder.Some? ==> s.holder.value in s.pc)
    && (forall t | t in s.pc :: HoldsLock(s.pc[t]) <==> s.holder == Some(t))
  }

  ghost predicate RemoverSleeps(s: State) { exists t :: t in s.pc && SleepsNonEmpty(s.pc[t]) }

  ghost predicate AppenderSleeps(s: State) { exists t :: t in s.pc && SleepsNonFull(s.pc[t]) }

  /** No lost wakeup: a sleeper's reason to sleep is still there. */
  ghost predicate Justified(s: State) {
    && (RemoverSleeps(s) ==> s.ring.length == 0)
    && (AppenderSleeps(s) ==> s.ring.length == |s.ring.elem|)
  }

  /** What the thread inside the critical section has established so far. */
  ghost predicate Progress(s: State, pc: Pc)
    requires s.ring.Valid()
  {
    && (match pc
        case Checking(op) => op.Remove?
        case Storing(op) => !op.Remove?
        case Growing(op) => !op.Remove?
        case Reading(op) => op.Remove?
        case Advancing(op, _) => op.Remove?
        case Shrinking(op, _) => op.Remove?
        case _ => true)
    && (match pc
        case Waking(op) => s.ring.length != if op.Remove? then 0 else |s.ring.elem|
        case Storing(_) => s.ring.length != |s.ring.elem| && !RemoverSleeps(s)
        case Growing(op) =>
          && s.ring.length != |s.ring.elem| && !RemoverSleeps(s)
          && s.ring.elem[Slot(s.ring.head, s.ring.length, |s.ring.elem|)] == Payload(op)
        case Reading(_) => s.ring.length != 0 && !AppenderSleeps(s)
        case Advancing(_, v) =>
          s.ring.length != 0 && !AppenderSleeps(s) && v == s.ring.elem[s.ring.head]
        case Shrinking(_, _) => s.ring.length != 0 && !AppenderSleeps(s)
        case Leaving(op, outcome) => Reported(s, op, outcome)
        case _ => true)
  }

  /** What each return value promises about the queue at the unlock. */
  ghost predicate Reported(s: State, op: Op, outcome: Outcome)
    requires s.ring.Valid()
  {
    match outcome
    case Full => op.TryAppend? && |s.ring.Contents()| == |s.ring.elem|
    case Empty => op.Remove? && s.ring.Contents() == []
    case Got(v) => op.Remove? && s.removed != [] && s.removed[|s.removed| - 1] == v
    case Stored =>
      s.appended != [] &&
      (match op
       case Append(x) => s.appended[|s.appended| - 1] == x
       case TryAppend(x) => s.appended[|s.appended| - 1] == x
       case Remove => false)
  }

  /** The queue as its users see it, also in the middle of a removal: between the statement that
      moves `head` and the one that lowers `length`, the element on its way out still counts. */
  ghost function Queued(s: State): seq<int>
    requires s.ring.Valid()
  {
    if s.holder.Some? && s.holder.value in s.pc && s.pc[s.holder.value].Shrinking? && s.ring.length > 0
    then [s.pc[s.holder.value].v] + s.ring.Shrink().Contents()
    else s.ring.Contents()
  }

  ghost predicate Safe(s: State) {
    && s.ring.Valid()
    && Exclusive(s)
    && Justified(s)
    && (s.holder.Some? ==> Progress(s, s.pc[s.holder.value]))
    && s.appended == s.removed + Queued(s)
  }

  // ---------------------------------------------------------------- one step at a time

  /** Calling an operation, waking up and giving up on the try-lock leave the queue alone. */
  lemma MoveKeepsSafe(s: State, t: nat, next: Pc)
    requires Safe(s) && t in s.pc && !HoldsLock(s.pc[t]) && !HoldsLock(next) && !next.Asleep?
    ensures Safe(Move(s, t, next)) && Queued(Move(s, t, next)) == Queued(s)
  {
    var s' := Move(s, t, next);
    assert RemoverSleeps(s') ==> RemoverSleeps(s);
    assert AppenderSleeps(s') ==> AppenderSleeps(s);
  }

  /** So does taking the free mutex. */
  lemma AcquireKeepsSafe(s: State, t: nat, next: Pc)
    requires Safe(s) && t in s.pc && s.holder == None && !HoldsLock(s.pc[t])
    requires next.Testing? || (next.Checking? && next.op.Remove?)
    ensures Safe(Acquire(s, t, next)) && Queued(Acquire(s, t, next)) == Queued(s)
  {
    var s' := Acquire(s, t, next);
    assert RemoverSleeps(s') ==> RemoverSleeps(s);
    assert AppenderSleeps(s') ==> AppenderSleeps(s);
  }

  lemma OutsideKeepsSafe(s: State, t: nat, c: Choice)
    requires Safe(s) && t in s.pc && !HoldsLock(s.pc[t]) && Step(s, t, c).Some?
    ensures
      var s' := Step(s, t, c).value;
      Safe(s') && Queued(s') == Queued(s) && s'.appended == s.appended && s'.removed == s.removed
  {
    match (s.pc[t], c)
    case (Idle, Call(op)) => MoveKeepsSafe(s, t, Entering(op));
    case (Entering(op), Go) => AcquireKeepsSafe(s, t, Testing(op));
    case (Entering(op), Balk) => MoveKeepsSafe(s, t, Idle);
    case (Asleep(op), Rouse) => MoveKeepsSafe(s, t, Relocking(op));
    case (Relocking(op), Go) => AcquireKeepsSafe(s, t, Testing(op));
    case (Relocking(op), Expire) => AcquireKeepsSafe(s, t, Checking(op));
    case _ =>
  }

  /** A thread falls asleep, or goes on, for the reason its loop condition gives. */
  lemma TestKeepsSafe(s: State, t: nat, op: Op)
    requires Safe(s) && t in s.pc && s.pc[t] == Testing(op)
    ensures Safe(Test(s, t, op)) && Queued(Test(s, t, op)) == Queued(s)
  {
    var s' := Test(s, t, op);
    assert s.holder == Some(t);
    forall u | u in s'.pc && u != t
      ensures u in s.pc && s'.pc[u] == s.pc[u]
    {
    }
    assert RemoverSleeps(s') ==> RemoverSleeps(s) || SleepsNonEmpty(s'.pc[t]);
    assert AppenderSleeps(s') ==> AppenderSleeps(s) || SleepsNonFull(s'.pc[t]);
  }

  /** The broadcast goes out exactly when somebody may be asleep, so nobody is left behind. */
  lemma WakeKeepsSafe(s: State, t: nat, op: Op)
    requires Safe(s) && t in s.pc && s.pc[t] == Waking(op)
    ensures Safe(Wake(s, t, op)) && Queued(Wake(s, t, op)) == Queued(s)
  {
    var s' := Wake(s, t, op);
    assert s.holder == Some(t);
    assert RemoverSleeps(s') ==> RemoverSleeps(s);
    assert AppenderSleeps(s') ==> AppenderSleeps(s);
  }

  lemma SleepersUnchanged(s: State, s': State, t: nat)
    requires t in s.pc && HoldsLock(s.pc[t]) && s'.pc.Keys == s.pc.Keys
    requires forall u | u in s.pc && u != t :: s'.pc[u] == s.pc[u]
    requires !s'.pc[t].Asleep?
    ensures RemoverSleeps(s') == RemoverSleeps(s) && AppenderSleeps(s') == AppenderSleeps(s)
  {
    assert RemoverSleeps(s') ==> RemoverSleeps(s);
    assert AppenderSleeps(s') ==> AppenderSleeps(s);
    if RemoverSleeps(s) {
      var u :| u in s.pc && SleepsNonEmpty(s.pc[u]);
      assert u in s'.pc && SleepsNonEmpty(s'.pc[u]);
    }
    if AppenderSleeps(s) {
      var u :| u in s.pc && SleepsNonFull(s.pc[u]);
      assert u in s'.pc && SleepsNonFull(s'.pc[u]);
    }
  }

  lemma StoreKeepsSafe(s: State, t: nat, op: Op)
    requires Safe(s) && t in s.pc && s.pc[t] == Storing(op)
    ensures Safe(Inside(s, t, s.pc[t])) && Queued(Inside(s, t, s.pc[t])) == Queued(s)
  {
    assert s.holder == Some(t);
    SleepersUnchanged(s, Inside(s, t, s.pc[t]), t);
    hide RemoverSleeps, AppenderSleeps, Test, Wake;
    StoreThenGrow(s.ring, Payload(op));
  }

  lemma GrowKeepsSafe(s: State, t: nat, op: Op)
    requires Safe(s) && t in s.pc && s.pc[t] == Growing(op)
    ensures Safe(Inside(s, t, s.pc[t]))
    ensures Queued(Inside(s, t, s.pc[t])) == Queued(s) + [Payload(op)]
  {
    var s' := Inside(s, t, s.pc[t]);
    assert s.holder == Some(t);
    SleepersUnchanged(s, s', t);
    hide RemoverSleeps, AppenderSleeps, Test, Wake;
    GrowAppends(s.ring);
    assert s'.appended == s.removed + (Queued(s) + [Payload(op)]);
  }

  lemma AdvanceKeepsSafe(s: State, t: nat, op: Op, v: int)
    requires Safe(s) && t in s.pc && s.pc[t] == Advancing(op, v)
    ensures Safe(Inside(s, t, s.pc[t])) && Queued(Inside(s, t, s.pc[t])) == Queued(s)
  {
    assert s.holder == Some(t);
    SleepersUnchanged(s, Inside(s, t, s.pc[t]), t);
    hide RemoverSleeps, AppenderSleeps, Test, Wake;
    AdvanceThenShrink(s.ring);
  }

  lemma ShrinkKeepsSafe(s: State, t: nat, op: Op, v: int)
    requires Safe(s) && t in s.pc && s.pc[t] == Shrinking(op, v)
    ensures Safe(Inside(s, t, s.pc[t])) && Queued(s) == [v] + Queued(Inside(s, t, s.pc[t]))
  {
    var s' := Inside(s, t, s.pc[t]);
    assert s.holder == Some(t);
    SleepersUnchanged(s, s', t);
    hide RemoverSleeps, AppenderSleeps, Test, Wake;
    assert s'.removed + Queued(s') == s.removed + ([v] + Queued(s'));
  }

  /** The statements that change the ring, and the ones around them. */
  lemma {:induction false} UpdateKeepsSafe(s: State, t: nat)
    requires Safe(s) && t in s.pc && HoldsLock(s.pc[t])
    requires !s.pc[t].Testing? && !s.pc[t].Waking?
    ensures Safe(Inside(s, t, s.pc[t]))
    ensures
      var s' := Inside(s, t, s.pc[t]);
      match s.pc[t]
      case Growing(op) => Queued(s') == Queued(s) + [Payload(op)]
      case Shrinking(_, v) => Queued(s) == [v] + Queued(s')
      case _ => Queued(s') == Queued(s)
  {
    match s.pc[t]
    case Storing(op) => StoreKeepsSafe(s, t, op);
    case Growing(op) => GrowKeepsSafe(s, t, op);
    case Advancing(op, v) => AdvanceKeepsSafe(s, t, op, v);
    case Shrinking(op, v) => ShrinkKeepsSafe(s, t, op, v);
    case _ => QuietKeepsSafe(s, t);
  }

  /** Looking at the queue, and unlocking. */
  lemma QuietKeepsSafe(s: State, t: nat)
    requires Safe(s) && t in s.pc
    requires s.pc[t].Checking? || s.pc[t].Reading? || s.pc[t].Leaving?
    ensures Safe(Inside(s, t, s.pc[t])) && Queued(Inside(s, t, s.pc[t])) == Queued(s)
  {
    assert s.holder == Some(t);
    SleepersUnchanged(s, Inside(s, t, s.pc[t]), t);
    hide RemoverSleeps, AppenderSleeps, Test, Wake;
  }

  /** Every step keeps `Safe`, and is a step of a plain FIFO list: `length++` appends at the back,
      the `length--` that ends a removal takes the front, nothing else changes the list. */
  lemma {:induction false} StepRefinesFifo(s: State, t: nat, c: Choice)
    requires Safe(s) && Step(s, t, c).Some?
    ensures
      var s' := Step(s, t, c).value;
      && Safe(s')
      && (match s.pc[t]
          case Growing(Append(x)) => Queued(s') == Queued(s) + [x] && s'.appended == s.appended + [x]
          case Growing(TryAppend(x)) => Queued(s') == Queued(s) + [x] && s'.appended == s.appended + [x]
          case Shrinking(_, v) =>
            Queued(s) == [v] + Queued(s') && s'.removed == s.removed + [v]
          case _ =>
            Queued(s') == Queued(s) && s'.appended == s.appended && s'.removed == s.removed)
  {
    if !HoldsLock(s.pc[t]) {
      OutsideKeepsSafe(s, t, c);
    } else {
      assert c == Go;
      match s.pc[t]
      case Testing(op) => TestKeepsSafe(s, t, op);
      case Waking(op) => WakeKeepsSafe(s, t, op);
      case _ => UpdateKeepsSafe(s, t);
    }
  }

  /** A call has its whole effect in the one step that decides what it will return, and that effect is
      what it returns; no other step has any. */
  lemma {:induction false} EffectIsOutcome(s: State, t: nat, c: Choice)
    requires Safe(s) && Step(s, t, c).Some?
    ensures
      var s' := Step(s, t, c).value;
      if !s'.pc[t].Leaving? then
        Queued(s') == Queued(s) && s'.appended == s.appended && s'.removed == s.removed
      else
        && !s.pc[t].Idle? && !s.pc[t].Leaving? && s'.pc[t].op == s.pc[t].op
        && match s'.pc[t].outcome
           case Stored =>
             && !s.pc[t].op.Remove? && s'.removed == s.removed
             && Queued(s') == Queued(s) + [s.pc[t].op.x]
             && s'.appended == s.appended + [s.pc[t].op.x]
           case Got(v) =>
             && s.pc[t].op.Remove? && s'.appended == s.appended
             && Queued(s) == [v] + Queued(s') && s'.removed == s.removed + [v]
           case Full =>
             && s.pc[t].op.TryAppend? && |Queued(s)| == |s.ring.elem|
             && Queued(s') == Queued(s) && s'.appended == s.appended && s'.removed == s.removed
           case Empty =>
             && s.pc[t].op.Remove? && Queued(s) == []
             && Queued(s') == Queued(s) && s'.appended == s.appended && s'.removed == s.removed
  {
    StepRefinesFifo(s, t, c);
    OperationIsKept(s, t, c, t);
    if HoldsLock(s.pc[t]) {
      assert s.holder == Some(t) && Step(s, t, c).value == Inside(s, t, s.pc[t]);
    }
    hide RemoverSleeps, AppenderSleeps, WakeRemovers, WakeAppenders;
  }

  /** A thread keeps the operation it was called with until it is idle again. */
  lemma OperationIsKept(s: State, t: nat, c: Choice, u: nat)
    requires s.ring.Valid() && Step(s, t, c).Some? && (u in s.pc || u in Step(s, t, c).value.pc)
    ensures
      var s' := Step(s, t, c).value;
      && s'.pc.Keys == s.pc.Keys
      && (!s.pc[u].Idle? && !s'.pc[u].Idle? ==> s'.pc[u].op == s.pc[u].op)
  {
    if HoldsLock(s.pc[t]) {
      assert Step(s, t, c).value == Inside(s, t, s.pc[t]);
    }
  }

  /** A call begins with the operation that is called, and it ends at the unlock or, for the append
      that does not block, with the try-lock. */
  lemma CallsBeginAndEnd(s: State, t: nat, c: Choice)
    requires s.ring.Valid() && Step(s, t, c).Some?
    ensures
      var s' := Step(s, t, c).value;
      && (s.pc[t].Idle? ==> c.Call? && s'.pc[t] == Entering(c.op) && s' == Move(s, t, Entering(c.op)))
      && (s.pc[t].Leaving? ==> s'.pc[t].Idle?)
      && (!s.pc[t].Idle? && s'.pc[t].Idle? ==>
            || s.pc[t].Leaving?
            || (s.pc[t].Entering? && s.pc[t].op.TryAppend? && c == Balk && s'.ring == s.ring))
  {
    if HoldsLock(s.pc[t]) {
      assert Step(s, t, c).value == Inside(s, t, s.pc[t]);
    }
  }

  // ---------------------------------------------------------------- whole runs

  lemma InitIsSafe(s: State)
    requires Init(s)
    ensures Safe(s)
  {
  }

  lemma {:induction false} RunsKeepSafe(s: State, schedule: seq<(nat, Choice)>, s': State)
    requires Safe(s) && Runs(s, schedule, s')
    ensures Safe(s')
    decreases |schedule|
  {
    if schedule != [] {
      var prefix, last := schedule[..|schedule| - 1], schedule[|schedule| - 1];
      var mid: State :| Runs(s, prefix, mid) && Leads(mid, last, s');
      RunsKeepSafe(s, prefix, mid);
      StepRefinesFifo(mid, last.0, last.1);
    }
  }

  /** In every state any interleaving of any number of threads can reach: no wakeup is lost, so an
      appender and a remover are never asleep at the same time. */
  lemma NoLostWakeup(s: State, schedule: seq<(nat, Choice)>, s': State)
    requires Init(s) && Runs(s, schedule, s')
    ensures forall t | t in s'.pc && s'.pc[t].Asleep? ::
      if s'.pc[t].op.Remove? then s'.ring.length == 0 else s'.ring.length == |s'.ring.elem|
    ensures forall t, u | t in s'.pc && u in s'.pc && s'.pc[t].Asleep? && s'.pc[u].Asleep? ::
      s'.pc[t].op.Remove? == s'.pc[u].op.Remove?
  {
    InitIsSafe(s);
    RunsKeepSafe(s, schedule, s');
  }

  /** In every reachable state the values counted in are the values counted out followed by the
      queue, which fits the array; while no thread is inside, that queue is `elem[head..]`. */
  lemma {:induction false} ReachableIsFifo(s: State, schedule: seq<(nat, Choice)>, s': State)
    requires Init(s) && Runs(s, schedule, s')
    ensures s'.ring.Valid()
    ensures s'.appended == s'.removed + Queued(s')
    ensures s'.holder == None ==> s'.appended == s'.removed + s'.ring.Contents()
    ensures |Queued(s')| <= |s'.ring.elem|
    ensures forall t, u | t in s'.pc && u in s'.pc && HoldsLock(s'.pc[t]) && HoldsLock(s'.pc[u]) ::
      t == u
  {
    InitIsSafe(s);
    RunsKeepSafe(s, schedule, s');
  }

  /** What a call that is about to unlock reports is true of the queue it still holds:
      queue_remove reports failure only on an empty queue and success with the value it took out
      last, queue_try_append reports failure only on a full one. */
  lemma {:induction false} OutcomeIsTrue(s: State, schedule: seq<(nat, Choice)>, s': State, t: nat)
    requires Init(s) && Runs(s, schedule, s')
    requires t in s'.pc && s'.pc[t].Leaving?
    ensures s'.holder == Some(t)
    ensures s'.ring.Valid() && Reported(s', s'.pc[t].op, s'.pc[t].outcome)
  {
    InitIsSafe(s);
    RunsKeepSafe(s, schedule, s');
  }

  /** The deadline of thread `t` has passed in its current call. */
  ghost predicate GaveUp(schedule: seq<(nat, Choice)>, t: nat) {
    exists i :: 0 <= i < |schedule| && schedule[i] == (t, Expire)
      && forall j | i < j < |schedule| && schedule[j].0 == t :: !schedule[j].1.Call?
  }

  lemma StillGaveUp(schedule: seq<(nat, Choice)>, t: nat, move: (nat, Choice))
    requires GaveUp(schedule, t) && (move.0 == t ==> !move.1.Call?)
    ensures GaveUp(schedule + [move], t)
  {
    var i :| 0 <= i < |schedule| && schedule[i] == (t, Expire)
      && forall j | i < j < |schedule| && schedule[j].0 == t :: !schedule[j].1.Call?;
    assert (schedule + [move])[i] == (t, Expire);
  }

  lemma JustGaveUp(schedule: seq<(nat, Choice)>, t: nat)
    ensures GaveUp(schedule + [(t, Expire)], t)
  {
    assert (schedule + [(t, Expire)])[|schedule|] == (t, Expire);
  }

  /** About to report an empty queue, or to look at one after the wait. */
  ghost predicate GivesUp(s: State, t: nat) {
    t in s.pc &&
    (s.pc[t] == Leaving(Remove, Empty) || (s.pc[t] == Checking(Remove) && s.ring.length == 0))
  }

  lemma NothingGivenUp(s: State, t: nat)
    requires Init(s)
    ensures !GivesUp(s, t)
  {
  }

  /** A step that leads there is the passing of the deadline, or was there before. */
  lemma StepGivesUp(s: State, u: nat, c: Choice, t: nat)
    requires Safe(s) && Step(s, u, c).Some? && GivesUp(Step(s, u, c).value, t)
    ensures (u == t && c == Expire) || (GivesUp(s, t) && (u == t ==> !c.Call?))
  {
    var s' := Step(s, u, c).value;
    if u != t {
      OthersStay(s, u, c, t);
    } else if HoldsLock(s.pc[t]) {
      assert s' == Inside(s, t, s.pc[t]);
    }
  }

  /** While `t` holds the mutex, the steps of others change neither it nor the ring. */
  lemma OthersStay(s: State, u: nat, c: Choice, t: nat)
    requires Safe(s) && Step(s, u, c).Some? && u != t && t in s.pc
    requires HoldsLock(Step(s, u, c).value.pc[t])
    ensures Step(s, u, c).value.pc[t] == s.pc[t]
    ensures Step(s, u, c).value.ring == s.ring
  {
    assert HoldsLock(s.pc[u]) ==> Step(s, u, c).value == Inside(s, u, s.pc[u]);
  }

  /** queue_remove gives up only after its deadline: whenever a call is about to report an empty queue,
      its wait has told it that the deadline passed. */
  lemma {:induction false} EmptyOnlyAfterDeadline(
      s: State, schedule: seq<(nat, Choice)>, s': State, t: nat)
    requires Init(s) && Runs(s, schedule, s') && GivesUp(s', t)
    ensures GaveUp(schedule, t)
    decreases |schedule|
  {
    hide Step, Safe, GaveUp, GivesUp, Init;
    if schedule != [] {
      var prefix, last := schedule[..|schedule| - 1], schedule[|schedule| - 1];
      var mid: State :| Runs(s, prefix, mid) && Leads(mid, last, s');
      InitIsSafe(s);
      RunsKeepSafe(s, prefix, mid);
      StepGivesUp(mid, last.0, last.1, t);
      assert schedule == prefix + [last];
      if last == (t, Expire) {
        JustGaveUp(prefix, t);
      } else {
        EmptyOnlyAfterDeadline(s, prefix, mid, t);
        StillGaveUp(prefix, t, last);
      }
    } else {
      NothingGivenUp(s, t);
    }
  }

  /** Thread `t` last called `op`. */
  ghost predicate Called(schedule: seq<(nat, Choice)>, t: nat, op: Op) {
    exists i :: 0 <= i < |schedule| && schedule[i] == (t, Call(op))
      && forall j | i < j < |schedule| && schedule[j].0 == t :: !schedule[j].1.Call?
  }

  lemma StillCalled(schedule: seq<(nat, Choice)>, t: nat, op: Op, move: (nat, Choice))
    requires Called(schedule, t, op) && (move.0 == t ==> !move.1.Call?)
    ensures Called(schedule + [move], t, op)
  {
    var i :| 0 <= i < |schedule| && schedule[i] == (t, Call(op))
      && forall j | i < j < |schedule| && schedule[j].0 == t :: !schedule[j].1.Call?;
    assert (schedule + [move])[i] == (t, Call(op));
  }

  lemma JustCalled(schedule: seq<(nat, Choice)>, t: nat, op: Op)
    ensures Called(schedule + [(t, Call(op))], t, op)
  {
    assert (schedule + [(t, Call(op))])[|schedule|] == (t, Call(op));
  }

  lemma StepKeepsCalled(s: State, u: nat, c: Choice, t: nat, schedule: seq<(nat, Choice)>)
    requires s.ring.Valid() && Step(s, u, c).Some? && t in s.pc && !Step(s, u, c).value.pc[t].Idle?
    requires !s.pc[t].Idle? ==> Called(schedule, t, s.pc[t].op)
    ensures Called(schedule + [(u, c)], t, Step(s, u, c).value.pc[t].op)
  {
    hide Called;
    OperationIsKept(s, u, c, t);
    CallsBeginAndEnd(s, u, c);
    OnlyIdleCalls(s, u, c);
    if s.pc[t].Idle? {
      if u != t {
        IdleStays(s, u, c, t);
        assert false;
      }
      JustCalled(schedule, t, c.op);
    } else {
      StillCalled(schedule, t, s.pc[t].op, (u, c));
    }
  }

  /** Every thread inside an operation executes the one it called last; with `StepRefinesFifo`, what an
      append counts in is the argument of its call. */
  lemma {:induction false} ExecutesWhatWasCalled(
      s: State, schedule: seq<(nat, Choice)>, s': State, t: nat)
    requires Init(s) && Runs(s, schedule, s') && t in s'.pc && !s'.pc[t].Idle?
    ensures Called(schedule, t, s'.pc[t].op)
    decreases |schedule|
  {
    hide Step, Called;
    if schedule != [] {
      var prefix, last := schedule[..|schedule| - 1], schedule[|schedule| - 1];
      var mid: State :| Runs(s, prefix, mid) && Leads(mid, last, s');
      assert schedule == prefix + [(last.0, last.1)];
      OperationIsKept(mid, last.0, last.1, t);
      if !mid.pc[t].Idle? {
        ExecutesWhatWasCalled(s, prefix, mid, t);
      }
      StepKeepsCalled(mid, last.0, last.1, t, prefix);
    }
  }

  lemma IdleStays(s: State, u: nat, c: Choice, t: nat)
    requires s.ring.Valid() && Step(s, u, c).Some? && t in s.pc && s.pc[t].Idle? && u != t
    ensures Step(s, u, c).value.pc[t].Idle?
  {
    if HoldsLock(s.pc[u]) {
      assert Step(s, u, c).value == Inside(s, u, s.pc[u]);
    }
  }

  lemma OnlyIdleCalls(s: State, t: nat, c: Choice)
    requires s.ring.Valid() && Step(s, t, c).Some?
    ensures c.Call? <==> s.pc[t].Idle?
  {
  }

  /** No thread is held up by the code: every thread that is not idle could only move by waking
      up on its own accord. */
  ghost predicate Stuck(s: State)
    requires s.ring.Valid()
  {
    forall t :: Step(s, t, Go).None?
  }

  lemma HolderCanMove(s: State)
    requires Safe(s) && s.holder.Some?
    ensures !Stuck(s)
  {
    assert Step(s, s.holder.value, Go).Some?;
  }

  /** The only way to come to a standstill is the intended one: every thread inside an operation
      sleeps, all in queue_remove with an empty queue, or all in queue_append with a full one. */
  lemma StandstillIsJustified(s: State, schedule: seq<(nat, Choice)>, s': State)
    requires Init(s) && Runs(s, schedule, s')
    requires s'.ring.Valid() && Stuck(s')
    ensures s'.holder == None
    ensures forall t | t in s'.pc :: s'.pc[t].Idle? || s'.pc[t].Asleep?
    ensures
      || (forall t | t in s'.pc && s'.pc[t].Asleep? :: s'.pc[t].op.Remove? && s'.ring.Contents() == [])
      || (forall t | t in s'.pc && s'.pc[t].Asleep? ::
            !s'.pc[t].op.Remove? && |s'.ring.Contents()| == |s'.ring.elem|)
  {
    InitIsSafe(s);
    RunsKeepSafe(s, schedule, s');
    if s'.holder.Some? {
      HolderCanMove(s');
      assert false;
    }
    forall t | t in s'.pc
      ensures s'.pc[t].Idle? || s'.pc[t].Asleep?
    {
      assert Step(s', t, Go).None?;
    }
    NoLostWakeup(s, schedule, s');
  }
}
