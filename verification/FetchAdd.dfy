/** Lock-free fetch-and-add by a read / compare-and-swap loop, run by any number of threads on
    one shared machine word. A word is its residue modulo `M` (2^32 or 2^64), so that the sums
    wrap around as on the hardware. */
module FetchAdd {
  import opened Wrappers

  // ---------------------------------------------------------------- the protocol

  /** Where a thread is in the loop: about to execute `old = *p`, or about to compare-and-swap. */
  datatype Pc =
    | Idle
    | Reading(delta: int)
    | Swapping(delta: int, found: int, seen: nat)  // `seen` calls had completed at the read

  /** One completed call, recorded when its compare-and-swap succeeds. */
  datatype Call = Call(thread: nat, delta: int, result: int)

  datatype State = State(word: int, pc: map<nat, Pc>, calls: seq<Call>, failures: nat)

  datatype Choice = Begin(delta: int) | Go

  function Wrap(x: int, M: int): (r: int)
    requires M > 0
    ensures 0 <= r < M
  {
    x % M
  }

  function Step(s: State, t: nat, c: Choice, M: int): Option<State>
    requires M > 0
  {
    if t !in s.pc then None
    else match (s.pc[t], c)
      case (Idle, Begin(delta)) => Some(s.(pc := s.pc[t := Reading(delta)]))
      case (Reading(delta), Go) =>
        Some(s.(pc := s.pc[t := Swapping(delta, s.word, |s.calls|)]))
      case (Swapping(delta, found, _), Go) =>
        if s.word == found then
          Some(s.(word := Wrap(found + delta, M), pc := s.pc[t := Idle],
                  calls := s.calls + [Call(t, delta, found)]))
        else
          Some(s.(pc := s.pc[t := Reading(delta)], failures := s.failures + 1))
      case _ => None
  }

  ghost predicate Init(s: State, M: int) {
    && M > 0 && 0 <= s.word < M
    && (forall t | t in s.pc :: s.pc[t] == Idle)
    && s.calls == [] && s.failures == 0
  }

  /** `s'` is reached from `s` by moving the listed threads in turn. */
  ghost predicate Runs(s: State, schedule: seq<(nat, Choice)>, s': State, M: int)
    requires M > 0
    decreases |schedule|
  {
    if schedule == [] then s == s'
    else
      var last := schedule[|schedule| - 1];
      exists mid: State :: Runs(s, schedule[..|schedule| - 1], mid, M) && Leads(mid, last, s', M)
  }

  ghost predicate Leads(mid: State, move: (nat, Choice), s': State, M: int)
    requires M > 0
  {
    Step(mid, move.0, move.1, M) == Some(s')
  }

  // ---------------------------------------------------------------- linearizability

  function Total(calls: seq<Call>): int {
    if calls == [] then 0 else Total(calls[..|calls| - 1]) + calls[|calls| - 1].delta
  }

  /** The sequential specification: one after the other, each call returns the word it finds. */
  ghost predicate Sequential(start: int, calls: seq<Call>, M: int)
    requires M > 0
  {
    calls == [] ||
    var before := calls[..|calls| - 1];
    Sequential(start, before, M) && calls[|calls| - 1].result == Wrap(start + Total(before), M)
  }

  ghost predicate Linear(start: int, s: State, M: int)
    requires M > 0
  {
    && s.word == Wrap(start + Total(s.calls), M)
    && Sequential(start, s.calls, M)
  }

  lemma AtLeastOneTurn(k: int, M: int)
    requires M > 0 && k > 0
    ensures k * M >= M
  {
  }

  lemma AddTurn(a: int, M: int)
    requires M > 0
    ensures Wrap(a + M, M) == Wrap(a, M)
  {
    var k := (a + M) / M - a / M - 1;
    assert k * M == a % M - (a + M) % M by {
      assert (a + M) / M * M + (a + M) % M == a / M * M + a % M + M;
    }
    if k > 0 {
      AtLeastOneTurn(k, M);
    } else if k < 0 {
      AtLeastOneTurn(-k, M);
    }
  }

  lemma {:induction false} AddTurns(a: int, q: int, M: int)
    requires M > 0
    ensures Wrap(a + q * M, M) == Wrap(a, M)
    decreases if q < 0 then -q else q
  {
    hide Wrap;
    if q > 0 {
      AddTurns(a, q - 1, M);
      AddTurn(a + (q - 1) * M, M);
      assert a + (q - 1) * M + M == a + q * M;
    } else if q < 0 {
      AddTurns(a, q + 1, M);
      AddTurn(a + q * M, M);
      assert a + q * M + M == a + (q + 1) * M;
    }
  }

  lemma WrapAdds(a: int, d: int, M: int)
    requires M > 0
    ensures Wrap(Wrap(a, M) + d, M) == Wrap(a + d, M)
  {
    assert a + d == Wrap(a, M) + d + (a / M) * M;
    AddTurns(Wrap(a, M) + d, a / M, M);
  }

  lemma CallExtends(start: int, calls: seq<Call>, call: Call, M: int)
    requires M > 0 && Sequential(start, calls, M) && call.result == Wrap(start + Total(calls), M)
    ensures Sequential(start, calls + [call], M)
    ensures Wrap(call.result + call.delta, M) == Wrap(start + Total(calls + [call]), M)
  {
    hide Wrap;
    assert (calls + [call])[..|calls|] == calls;
    WrapAdds(start + Total(calls), call.delta, M);
  }

  lemma StepIsLinear(start: int, s: State, t: nat, c: Choice, M: int)
    requires M > 0 && Linear(start, s, M) && Step(s, t, c, M).Some?
    ensures Linear(start, Step(s, t, c, M).value, M)
  {
    hide Wrap, Total, Sequential;
    if s.pc[t].Swapping? && s.word == s.pc[t].found {
      CallExtends(start, s.calls, Call(t, s.pc[t].delta, s.word), M);
    }
  }

  /** Whatever the interleaving, the completed calls, in the order of their successful swaps, are
      a sequential history of fetch-and-add, and the word holds the sum of their deltas. */
  lemma {:induction false} Linearizable(s: State, schedule: seq<(nat, Choice)>, s': State, M: int)
    requires Init(s, M) && Runs(s, schedule, s', M)
    ensures Linear(s.word, s', M)
    decreases |schedule|
  {
    if schedule != [] {
      var prefix, last := schedule[..|schedule| - 1], schedule[|schedule| - 1];
      var mid: State :| Runs(s, prefix, mid, M) && Leads(mid, last, s', M);
      Linearizable(s, prefix, mid, M);
      StepIsLinear(s.word, mid, last.0, last.1, M);
    }
  }

  /** A call takes effect between its begin and its return: the only step that records it is the
      one that ends it, with the delta it was called with, by the thread that called. */
  lemma EffectIsOwnStep(s: State, t: nat, c: Choice, M: int)
    requires M > 0 && Step(s, t, c, M).Some?
    ensures
      var s' := Step(s, t, c, M).value;
      && t in s.pc && s'.pc.Keys == s.pc.Keys
      && (forall u | u in s.pc && u != t :: u in s'.pc && s'.pc[u] == s.pc[u])
      && (if !s.pc[t].Idle? && s'.pc[t].Idle?
          then s'.calls == s.calls + [Call(t, s.pc[t].delta, s.word)] && !c.Begin?
               && s'.word == Wrap(s.word + s.pc[t].delta, M)
          else s'.calls == s.calls && s'.word == s.word)
      && (!s.pc[t].Idle? && !s'.pc[t].Idle? ==> s'.pc[t].delta == s.pc[t].delta)
      && (s.pc[t].Idle? <==> c.Begin?)
      && (c.Begin? ==> s'.pc[t] == Reading(c.delta))
  {
  }

  /** Thread `t` has begun a call with `delta`. */
  ghost predicate Begun(schedule: seq<(nat, Choice)>, t: nat, delta: int) {
    exists i :: 0 <= i < |schedule| && schedule[i] == (t, Begin(delta))
  }

  /** It is the last call that `t` has begun. */
  ghost predicate LastBegun(schedule: seq<(nat, Choice)>, t: nat, delta: int) {
    exists i :: 0 <= i < |schedule| && schedule[i] == (t, Begin(delta))
      && forall j | i < j < |schedule| && schedule[j].0 == t :: !schedule[j].1.Begin?
  }

  lemma BegunStays(schedule: seq<(nat, Choice)>, move: (nat, Choice), t: nat, delta: int)
    ensures Begun(schedule, t, delta) ==> Begun(schedule + [move], t, delta)
    ensures LastBegun(schedule, t, delta) && (move.0 == t ==> !move.1.Begin?) ==>
      LastBegun(schedule + [move], t, delta)
    ensures LastBegun(schedule, t, delta) ==> Begun(schedule, t, delta)
    ensures move == (t, Begin(delta)) ==> LastBegun(schedule + [move], t, delta)
  {
    var longer := schedule + [move];
    if Begun(schedule, t, delta) {
      var i :| 0 <= i < |schedule| && schedule[i] == (t, Begin(delta));
      assert longer[i] == (t, Begin(delta));
    }
    if LastBegun(schedule, t, delta) && (move.0 == t ==> !move.1.Begin?) {
      var i :| 0 <= i < |schedule| && schedule[i] == (t, Begin(delta))
        && forall j | i < j < |schedule| && schedule[j].0 == t :: !schedule[j].1.Begin?;
      assert longer[i] == (t, Begin(delta));
    }
    if move == (t, Begin(delta)) {
      assert longer[|schedule|] == move;
    }
  }

  /** Threads carry the deltas they were called with, and so do the completed calls. */
  ghost predicate Carried(s: State, schedule: seq<(nat, Choice)>) {
    && (forall t | t in s.pc && !s.pc[t].Idle? :: LastBegun(schedule, t, s.pc[t].delta))
    && (forall k | 0 <= k < |s.calls| :: Begun(schedule, s.calls[k].thread, s.calls[k].delta))
  }

  lemma StepCarries(s: State, t: nat, c: Choice, M: int, schedule: seq<(nat, Choice)>)
    requires M > 0 && Carried(s, schedule) && Step(s, t, c, M).Some?
    ensures Carried(Step(s, t, c, M).value, schedule + [(t, c)])
  {
    var s', move := Step(s, t, c, M).value, (t, c);
    EffectIsOwnStep(s, t, c, M);
    hide Begun, LastBegun, Step, Wrap;
    forall u | u in s'.pc && !s'.pc[u].Idle?
      ensures LastBegun(schedule + [move], u, s'.pc[u].delta)
    {
      BegunStays(schedule, move, u, s'.pc[u].delta);
    }
    forall k | 0 <= k < |s'.calls|
      ensures Begun(schedule + [move], s'.calls[k].thread, s'.calls[k].delta)
    {
      BegunStays(schedule, move, s'.calls[k].thread, s'.calls[k].delta);
    }
  }

  /** In every run, what a completed call has added is the delta that its thread was called with. */
  lemma {:induction false} CallsCarryDeltas(
      s: State, schedule: seq<(nat, Choice)>, s': State, M: int)
    requires Init(s, M) && Runs(s, schedule, s', M)
    ensures Carried(s', schedule)
    decreases |schedule|
  {
    if schedule != [] {
      hide Step, Carried;
      var prefix, last := schedule[..|schedule| - 1], schedule[|schedule| - 1];
      var mid: State :| Runs(s, prefix, mid, M) && Leads(mid, last, s', M);
      CallsCarryDeltas(s, prefix, mid, M);
      StepCarries(mid, last.0, last.1, M, prefix);
      assert schedule == prefix + [(last.0, last.1)];
    }
  }

  lemma {:induction false} TotalOfOnes(calls: seq<Call>)
    requires forall i | 0 <= i < |calls| :: calls[i].delta == 1
    ensures Total(calls) == |calls|
  {
    if calls != [] {
      TotalOfOnes(calls[..|calls| - 1]);
    }
  }

  lemma SameResidue(a: int, b: int, M: int)
    requires M > 0
    ensures Wrap(a, M) == Wrap(b, M) <==> (b - a) % M == 0
  {
    if (b - a) % M == 0 {
      assert b == a + ((b - a) / M) * M;
      AddTurns(a, (b - a) / M, M);
    }
    if Wrap(a, M) == Wrap(b, M) {
      assert b - a == 0 + (b / M - a / M) * M;
      AddTurns(0, b / M - a / M, M);
    }
  }

  /** Tickets: when every call adds one, two calls get the same value exactly when a whole number
      of turns of the word lies between them; so the first M calls get M different values. */
  lemma {:induction false} TicketsRepeatExactlyOnWrap(
      s: State, schedule: seq<(nat, Choice)>, s': State, M: int, i: nat, j: nat)
    requires Init(s, M) && Runs(s, schedule, s', M)
    requires i < j < |s'.calls| && forall k | 0 <= k < |s'.calls| :: s'.calls[k].delta == 1
    ensures s'.calls[i].result == s'.calls[j].result <==> (j - i) % M == 0
    ensures j - i < M ==> s'.calls[i].result != s'.calls[j].result
  {
    hide Wrap, Runs, Sequential;
    Linearizable(s, schedule, s', M);
    TicketValue(s.word, s'.calls, i, M);
    TicketValue(s.word, s'.calls, j, M);
    SameResidue(s.word + i, s.word + j, M);
    if j - i < M { SmallRemainder(j - i, M); }
  }

  lemma {:induction false} TicketValue(start: int, calls: seq<Call>, i: nat, M: int)
    requires M > 0 && Sequential(start, calls, M) && i < |calls|
    requires forall k | 0 <= k < |calls| :: calls[k].delta == 1
    ensures calls[i].result == Wrap(start + i, M)
  {
    var before := calls[..|calls| - 1];
    if i < |before| {
      TicketValue(start, before, i, M);
    } else {
      TotalOfOnes(before);
    }
  }

  lemma SmallRemainder(d: int, M: int)
    requires 0 <= d < M
    ensures d % M == d
  {
  }

  // ---------------------------------------------------------------- the price of contention

  /** Threads whose read is out of date: some call has completed since. */
  function Stale(s: State): (stale: set<nat>)
    ensures stale <= s.pc.Keys
  {
    set t | t in s.pc && s.pc[t].Swapping? && s.pc[t].seen < |s.calls|
  }

  ghost predicate Bounded(s: State) {
    && (forall t | t in s.pc && s.pc[t].Swapping? ::
          s.pc[t].seen <= |s.calls| && (s.pc[t].seen == |s.calls| ==> s.pc[t].found == s.word))
    && s.failures + |Stale(s)| <= (|s.pc| - 1) * |s.calls|
  }

  lemma CardMonotone(a: set<nat>, b: set<nat>)
    requires a <= b
    ensures |a| <= |b|
    ensures a != b ==> |a| < |b|
  {
    assert b == a + (b - a);
    assert |b| == |a| + |b - a|;
    if a != b { assert b - a != {}; }
  }

  lemma OneMore(k: int, n: nat)
    ensures k * (n + 1) == k * n + k
  {
  }

  lemma SuccessKeepsBound(s: State, t: nat, M: int)
    requires M > 0 && Bounded(s) && t in s.pc && s.pc[t].Swapping? && s.word == s.pc[t].found
    ensures Bounded(Step(s, t, Go, M).value)
  {
    hide Wrap;
    var s' := Step(s, t, Go, M).value;
    assert t !in Stale(s');
    assert s'.pc.Keys == s.pc.Keys;
    CardMonotone(Stale(s'), s'.pc.Keys);
    assert |s'.pc| == |s'.pc.Keys| == |s.pc.Keys| == |s.pc|;
    OneMore(|s.pc| - 1, |s.calls|);
  }

  lemma StepKeepsBound(s: State, t: nat, c: Choice, M: int)
    requires M > 0 && Bounded(s) && Step(s, t, c, M).Some?
    ensures Bounded(Step(s, t, c, M).value)
    ensures Step(s, t, c, M).value.pc.Keys == s.pc.Keys
  {
    hide Wrap;
    if s.pc[t].Swapping? && s.word == s.pc[t].found {
      SuccessKeepsBound(s, t, M);
    } else {
      OtherKeepsBound(s, t, c, M);
    }
    assert Step(s, t, c, M).value.pc.Keys == s.pc.Keys;
  }

  /** A failed swap makes one stale read good; a call or a read costs nothing. */
  lemma OtherKeepsBound(s: State, t: nat, c: Choice, M: int)
    requires M > 0 && Bounded(s) && Step(s, t, c, M).Some?
    requires !(s.pc[t].Swapping? && s.word == s.pc[t].found)
    ensures Bounded(Step(s, t, c, M).value)
  {
    hide Wrap;
    var s' := Step(s, t, c, M).value;
    assert s'.pc.Keys == s.pc.Keys;
    assert |s'.pc| == |s'.pc.Keys| == |s.pc.Keys| == |s.pc|;
    assert s'.calls == s.calls;
    assert Stale(s') == Stale(s) - {t};
    if s.pc[t].Swapping? {
      assert t in Stale(s);
    }
  }

  lemma NothingStale(s: State, M: int)
    requires Init(s, M)
    ensures Bounded(s)
  {
    assert Stale(s) == {};
  }

  /** With T threads, every success can spoil at most the T - 1 reads of the others, so however
      they are scheduled the failed swaps number at most (T - 1) times the successful ones. In
      particular some thread always gets through. */
  lemma {:induction false} RetriesAreBounded(
      s: State, schedule: seq<(nat, Choice)>, s': State, M: int)
    requires Init(s, M) && Runs(s, schedule, s', M)
    ensures Bounded(s') && s'.pc.Keys == s.pc.Keys
    ensures s'.failures <= (|s.pc| - 1) * |s'.calls|
    decreases |schedule|
  {
    hide Step, Stale;
    if schedule == [] {
      NothingStale(s, M);
    } else {
      var prefix, last := schedule[..|schedule| - 1], schedule[|schedule| - 1];
      var mid: State :| Runs(s, prefix, mid, M) && Leads(mid, last, s', M);
      RetriesAreBounded(s, prefix, mid, M);
      StepKeepsBound(mid, last.0, last.1, M);
    }
    assert |s'.pc| == |s'.pc.Keys| == |s.pc.Keys| == |s.pc|;
  }

  // ---------------------------------------------------------------- why a swap fails

  /** A thread that has read the word holds what the calls completed by then had made of it, and
      every call completed since is another thread's. */
  ghost predicate ReadsOk(start: int, s: State, M: int)
    requires M > 0
  {
    forall t | t in s.pc && s.pc[t].Swapping? ::
      && s.pc[t].seen <= |s.calls|
      && s.pc[t].found == Wrap(start + Total(s.calls[..s.pc[t].seen]), M)
      && (forall i | s.pc[t].seen <= i < |s.calls| :: s.calls[i].thread != t)
  }

  lemma StepKeepsReads(start: int, s: State, t: nat, c: Choice, M: int)
    requires M > 0 && Linear(start, s, M) && ReadsOk(start, s, M) && Step(s, t, c, M).Some?
    ensures ReadsOk(start, Step(s, t, c, M).value, M)
  {
    hide Wrap, Total, Sequential;
    var s' := Step(s, t, c, M).value;
    assert s.calls[..|s.calls|] == s.calls;
    forall u | u in s'.pc && s'.pc[u].Swapping? && u != t
      ensures s'.calls[..s'.pc[u].seen] == s.calls[..s'.pc[u].seen]
    {
    }
  }

  lemma {:induction false} RunsKeepReads(s: State, schedule: seq<(nat, Choice)>, s': State, M: int)
    requires Init(s, M) && Runs(s, schedule, s', M)
    ensures ReadsOk(s.word, s', M)
    decreases |schedule|
  {
    hide Step, Wrap, Total, Linear;
    if schedule != [] {
      var prefix, last := schedule[..|schedule| - 1], schedule[|schedule| - 1];
      var mid: State :| Runs(s, prefix, mid, M) && Leads(mid, last, s', M);
      RunsKeepReads(s, prefix, mid, M);
      Linearizable(s, prefix, mid, M);
      StepKeepsReads(s.word, mid, last.0, last.1, M);
    }
  }

  /** In every reachable state a swap fails if and only if the calls that completed since the read
      have moved the word by something other than whole turns. So at least one has completed, and
      every one that has is another thread's. */
  lemma {:induction false} FailureNeedsAnotherSuccess(
      s: State, schedule: seq<(nat, Choice)>, s': State, t: nat, M: int)
    requires Init(s, M) && Runs(s, schedule, s', M)
    requires t in s'.pc && s'.pc[t].Swapping?
    ensures s'.pc[t].seen <= |s'.calls|
    ensures
      var moved := Total(s'.calls) - Total(s'.calls[..s'.pc[t].seen]);
      Step(s', t, Go, M).value.failures > s'.failures <==> moved % M != 0
    ensures Step(s', t, Go, M).value.failures > s'.failures ==>
      exists i :: s'.pc[t].seen <= i < |s'.calls| && s'.calls[i].thread != t
    ensures forall i | s'.pc[t].seen <= i < |s'.calls| :: s'.calls[i].thread != t
  {
    hide Wrap, Total, Sequential, Runs;
    RunsKeepReads(s, schedule, s', M);
    Linearizable(s, schedule, s', M);
    var seen := s'.pc[t].seen;
    SameResidue(s.word + Total(s'.calls[..seen]), s.word + Total(s'.calls), M);
    if seen == |s'.calls| {
      assert s'.calls[..seen] == s'.calls;
    } else {
      assert s'.calls[seen].thread != t;
    }
  }

  // ---------------------------------------------------------------- the loop of one caller

  /** What other threads add to the word during one round of a caller's loop: before the read, and
      between the read and the swap. */
  datatype Net = Net(early: int, late: int)

  /** Their additions during the first `k` rounds. */
  function Landed(others: seq<Net>, k: nat): int
    decreases k
  {
    if k == 0 then 0
    else Landed(others, k - 1) + NetOf(others, k - 1).early + NetOf(others, k - 1).late
  }

  function NetOf(others: seq<Net>, k: nat): Net {
    if k < |others| then others[k] else Net(0, 0)
  }

  lemma SameWord(w: int, d: int, M: int)
    requires M > 0 && 0 <= w < M
    ensures Wrap(w + d, M) == w <==> d % M == 0
  {
    SmallRemainder(w, M);
    SameResidue(w, w + d, M);
    assert (w + d) - w == d;
  }

  class Word {
    var value: int
    const M: int

    ghost predicate Valid()
      reads this
    {
      M > 0 && 0 <= value < M
    }

    constructor (start: int, M: int)
      requires M > 0 && 0 <= start < M
      ensures Valid() && value == start && this.M == M
    {
      value := start;
      this.M := M;
    }

    // InterlockedCompareExchange returns the word it found; the callers compare that with `o`.
    method CompareAndSwap(o: int, n: int) returns (swapped: bool)
      modifies this
      ensures swapped <==> old(value) == o
      ensures value == if swapped then n else old(value)
    {
      var found := value;
      if found == o {
        value := n;
      }
      swapped := found == o;
    }

    /** The calls of other threads that complete before this thread's next statement. */
    method Interfere(net: int)
      requires Valid()
      modifies this
      ensures Valid() && value == Wrap(old(value) + net, M)
    {
      value := Wrap(value + net, M);
    }

    /** One round: the read and the swap, with what other threads do before each of them. */
    method Round(delta: int, net: Net) returns (result: int, done: bool)
      requires Valid()
      modifies this
      ensures Valid() && done == (net.late % M == 0)
      ensures done ==> result == Wrap(old(value) + net.early + net.late, M)
      ensures value ==
        if done then Wrap(result + delta, M) else Wrap(old(value) + net.early + net.late, M)
    {
      hide Wrap;
      Interfere(net.early);
      result := value;
      Interfere(net.late);
      SameWord(result, net.late, M);
      WrapAdds(old(value) + net.early, net.late, M);
      done := CompareAndSwap(result, Wrap(result + delta, M));
    }

    /** gpr_atm_no_barrier_fetch_add while other threads add `others[k]` to the word during the
        caller's k-th round and leave it alone after the last of these. A round fails exactly when
        what lands between its read and its swap is not a whole number of turns of the word. */
    method FetchAdd(delta: int, others: seq<Net>) returns (result: int, rounds: nat)
      requires Valid()
      modifies this
      ensures Valid()
      ensures 1 <= rounds <= |others| + 1
      ensures forall k | 0 <= k < rounds - 1 :: others[k].late % M != 0
      ensures rounds <= |others| ==> others[rounds - 1].late % M == 0
      ensures result == Wrap(old(value) + Landed(others, rounds), M)
      ensures value == Wrap(result + delta, M)
    {
      hide Wrap;
      SmallWord(value, M);
      var done := false;
      rounds, result := 0, value;
      while !done
        invariant Valid() && rounds <= |others| + if done then 1 else 0
        invariant done ==> rounds > 0
        invariant forall k | 0 <= k < if done then rounds - 1 else rounds :: others[k].late % M != 0
        invariant done && rounds <= |others| ==> others[rounds - 1].late % M == 0
        invariant done ==> result == Wrap(old(value) + Landed(others, rounds), M)
        invariant value ==
          if done then Wrap(result + delta, M) else Wrap(old(value) + Landed(others, rounds), M)
        decreases |others| + 1 - rounds, !done
      {
        ghost var net := NetOf(others, rounds);
        WrapAdds(old(value) + Landed(others, rounds), net.early + net.late, M);
        NoTurn(M);
        result, done := Round(delta, NetOf(others, rounds));
        rounds := rounds + 1;
      }
    }
  }

  lemma SmallWord(w: int, M: int)
    requires M > 0 && 0 <= w < M
    ensures Wrap(w, M) == w
  {
    SmallRemainder(w, M);
  }

  lemma NoTurn(M: int)
    requires M > 0
    ensures 0 % M == 0
  {
  }
}
