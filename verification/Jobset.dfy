/** The scheduler that runs a list of jobs, at most `maxjobs` at a time, until all have ended or
    the run is cancelled. When a process exits, with which code, what the files of a job contain
    and whether somebody asks to cancel are up to the environment; so is the order in which the
    set of running jobs is walked. */
module Jobsets {
  import opened Worlds
  import opened TestCaches
  import opened Wrappers

  /** `targets` are the files whose contents are hashed; the timeout is in ticks of the clock. */
  datatype JobSpec = JobSpec(identity: string, targets: seq<string>, timeout: int)

  datatype JobState = Success | Failure | Running | Killed

  predicate Bad(st: JobState) { st.Failure? || st.Killed? }

  class Job {
    const spec: JobSpec
    const binHash: Option<string>
    const start: int
    var state: JobState
    ghost var code: Option<int>  // the exit code that settled the job, if one did

    /** Success is exit code 0 and failure any other one; without one the job is running or has been
        killed. */
    ghost predicate Honest()
      reads this
    {
      match state
      case Success => code == Some(0)
      case Failure => code.Some? && code.value != 0
      case _ => code.None?
    }

    constructor (spec: JobSpec, binHash: Option<string>, start: int)
      ensures this.spec == spec && this.binHash == binHash && this.start == start
      ensures state == Running && Honest()
    {
      this.spec, this.binHash, this.start := spec, binHash, start;
      state := Running;
      code := None;
    }

    /** `exit` is what polling the process returns. */
    method State(exit: Option<int>, world: World, cache: TestCache?) returns (st: JobState)
      requires cache != null ==> cache.Valid() && cache.world == world
      modifies this, world`now, cache
      ensures st == state
      ensures state == Success <==>
        old(state) == Success || (old(state) == Running && exit == Some(0))
      ensures state == Failure <==>
        old(state) == Failure || (old(state) == Running && exit.Some? && exit.value != 0)
      ensures state == Killed <==>
        || old(state) == Killed
        || (old(state) == Running && exit.None? && world.now - start > spec.timeout)
      ensures code == if old(state) == Running && exit.Some? then exit else old(code)
      ensures old(Honest()) ==> Honest()
      ensures world.now >= old(world.now)
      ensures cache != null ==>
        (cache.Valid()
         && cache.history == old(cache.history) +
              if old(state) == Running && state == Success && binHash.Some?
              then [Record(spec.identity, binHash.value)] else [])
    {
      var t := world.Time();
      if state == Running && exit.Some? {
        code := exit;
        if exit.value != 0 {
          state := Failure;
        } else {
          state := Success;
          if binHash.Some? && cache != null {
            cache.Finished(spec.identity, binHash.value);
          }
        }
      } else if state == Running && t - start > spec.timeout {
        Kill();
      }
      st := state;
    }

    method Kill()
      modifies this`state
      ensures state == if old(state) == Running then Killed else old(state)
    {
      if state == Running {
        state := Killed;
      }
    }
  }

  /** One text after the other. */
  function Concat(parts: seq<string>): string {
    if parts == [] then "" else Concat(parts[..|parts| - 1]) + parts[|parts| - 1]
  }

  /** Names with what the files of these names contain. */
  function Pairs(names: seq<string>, contents: seq<string>): seq<(string, string)>
    requires |names| == |contents|
  {
    seq(|names|, i requires 0 <= i < |names| => (names[i], contents[i]))
  }

  lemma PairsGrow(names: seq<string>, contents: seq<string>, name: string, content: string)
    requires |names| == |contents|
    ensures Pairs(names + [name], contents + [content]) == Pairs(names, contents) + [(name, content)]
  {
  }

  lemma ConcatMore(parts: seq<string>, text: string)
    ensures Concat(parts + [text]) == Concat(parts) + text
  {
    assert (parts + [text])[..|parts|] == parts;
  }

  lemma {:induction false} ConcatInTwo(parts: seq<string>, more: seq<string>)
    ensures Concat(parts + more) == Concat(parts) + Concat(more)
    decreases |more|
  {
    if more == [] {
      assert parts + more == parts;
    } else {
      hide Concat;
      var front, last := more[..|more| - 1], more[|more| - 1];
      assert more == front + [last] && parts + more == (parts + front) + [last];
      ConcatInTwo(parts, front);
      ConcatMore(parts + front, last);
      ConcatMore(front, last);
      assert Concat(parts) + (Concat(front) + last) == (Concat(parts) + Concat(front)) + last;
    }
  }

  /** What became of a job that was handed to `Start`. */
  datatype Fate =
    | Started(at: nat)                   // it is the job number `at`
    | Skipped(hash: string, known: nat)  // the cache, with `known` records, said not to run it

  function CountStarted(fates: seq<Fate>): nat {
    if fates == [] then 0
    else CountStarted(fates[..|fates| - 1]) + if fates[|fates| - 1].Started? then 1 else 0
  }

  function CountBad(outcomes: seq<JobState>): nat {
    if outcomes == [] then 0
    else CountBad(outcomes[..|outcomes| - 1]) + if Bad(outcomes[|outcomes| - 1]) then 1 else 0
  }

  /** The reports of a list of jobs to the cache. */
  function Reports(jobs: seq<Job>): (r: seq<Record>)
    requires forall i | 0 <= i < |jobs| :: jobs[i].binHash.Some?
  {
    seq(|jobs|, i requires 0 <= i < |jobs| => Record(jobs[i].spec.identity, jobs[i].binHash.value))
  }

  /** Every accepted spec was started as a job of its own, or skipped on the word of the cache. */
  ghost predicate FatesOk(
      fates: seq<Fate>, specs: seq<JobSpec>, started: seq<Job>, caching: bool, history: seq<Record>)
  {
    && |fates| == |specs|
    && CountStarted(fates) == |started|
    && (forall i | 0 <= i < |fates| ::
          FateOk(fates[i], CountStarted(fates[..i]), specs[i], started, caching, history))
  }

  ghost predicate FateOk(
      fate: Fate, before: nat, spec: JobSpec, started: seq<Job>, caching: bool, history: seq<Record>)
  {
    match fate
    case Started(at) => at == before && at < |started| && started[at].spec == spec
    case Skipped(hash, known) =>
      caching && spec.targets != [] && known <= |history| && LastOf(history[..known], spec.identity, hash)
  }

  /** The hash a spec goes by: that of its identity, if it has files to hash. */
  ghost predicate RightLabel(spec: JobSpec, hash: Option<string>, hashes: map<string, string>) {
    if spec.targets != [] then spec.identity in hashes && hash == Some(hashes[spec.identity])
    else hash == None
  }

  /** The hash with which an accepted spec was started or skipped. */
  ghost function LabelOf(fate: Fate, started: seq<Job>): Option<string> {
    match fate
    case Started(at) => if at < |started| then started[at].binHash else None
    case Skipped(hash, _) => Some(hash)
  }

  ghost predicate LabelsOk(
      fates: seq<Fate>, specs: seq<JobSpec>, started: seq<Job>, hashes: map<string, string>)
  {
    && |fates| == |specs|
    && forall i | 0 <= i < |specs| ::
         && (fates[i].Started? ==> fates[i].at < |started|)
         && RightLabel(specs[i], LabelOf(fates[i], started), hashes)
  }

  lemma LabelsSurvive(
      fates: seq<Fate>, specs: seq<JobSpec>, started: seq<Job>, hashes: map<string, string>,
      id: string, hash: string)
    requires LabelsOk(fates, specs, started, hashes) && (id in hashes ==> hashes[id] == hash)
    ensures LabelsOk(fates, specs, started, hashes[id := hash])
  {
    forall i | 0 <= i < |specs|
      ensures RightLabel(specs[i], LabelOf(fates[i], started), hashes[id := hash])
    {
      assert RightLabel(specs[i], LabelOf(fates[i], started), hashes);
    }
  }

  lemma LabelsGrow(
      fates: seq<Fate>, specs: seq<JobSpec>, started: seq<Job>, hashes: map<string, string>,
      fate: Fate, spec: JobSpec, more: seq<Job>)
    requires LabelsOk(fates, specs, started, hashes)
    requires fate.Started? ==> fate.at < |started + more|
    requires RightLabel(spec, LabelOf(fate, started + more), hashes)
    ensures LabelsOk(fates + [fate], specs + [spec], started + more, hashes)
  {
    forall i | 0 <= i < |specs|
      ensures RightLabel(specs[i], LabelOf(fates[i], started + more), hashes)
    {
      assert LabelOf(fates[i], started + more) == LabelOf(fates[i], started);
    }
  }

  lemma FatesSurviveReports(
      fates: seq<Fate>, specs: seq<JobSpec>, started: seq<Job>, caching: bool,
      history: seq<Record>, more: seq<Record>)
    requires FatesOk(fates, specs, started, caching, history)
    ensures FatesOk(fates, specs, started, caching, history + more)
  {
    forall i | 0 <= i < |fates|
      ensures FateOk(fates[i], CountStarted(fates[..i]), specs[i], started, caching, history + more)
    {
      assert FateOk(fates[i], CountStarted(fates[..i]), specs[i], started, caching, history);
      if fates[i].Skipped? {
        assert (history + more)[..fates[i].known] == history[..fates[i].known];
      }
    }
  }

  lemma FatesGrow(
      fates: seq<Fate>, specs: seq<JobSpec>, started: seq<Job>, caching: bool,
      history: seq<Record>, fate: Fate, spec: JobSpec, more: seq<Job>)
    requires FatesOk(fates, specs, started, caching, history)
    requires FateOk(fate, CountStarted(fates), spec, started + more, caching, history)
    requires |more| == if fate.Started? then 1 else 0
    ensures FatesOk(fates + [fate], specs + [spec], started + more, caching, history)
  {
    assert (fates + [fate])[..|fates|] == fates;
    forall i | 0 <= i < |fates|
      ensures FateOk(fates[i], CountStarted((fates + [fate])[..i]), specs[i], started + more, caching, history)
    {
      assert FateOk(fates[i], CountStarted(fates[..i]), specs[i], started, caching, history);
      assert (fates + [fate])[..i] == fates[..i];
    }
  }

  ghost predicate NoDuplicates(jobs: seq<Job>) {
    forall i, j | 0 <= i < j < |jobs| :: jobs[i] != jobs[j]
  }

  /** Every job started is either running or has ended, once, and not too many are running. */
  ghost predicate BooksOk(
      running: set<Job>, started: seq<Job>, ended: seq<Job>, completed: nat, maxjobs: nat)
  {
    && NoDuplicates(started) && NoDuplicates(ended)
    && (forall j | j in running :: j in started && j !in ended)
    && (forall j | j in started :: j in running || j in ended)
    && (forall j | j in ended :: j in started)
    && |ended| == completed
    && completed + |running| == |started|
    && |running| <= maxjobs && maxjobs >= 1
  }

  lemma BooksOnStart(
      running: set<Job>, started: seq<Job>, ended: seq<Job>, completed: nat, maxjobs: nat, job: Job)
    requires BooksOk(running, started, ended, completed, maxjobs)
    requires job !in started && |running| < maxjobs
    ensures BooksOk(running + {job}, started + [job], ended, completed, maxjobs)
  {
    AppendDistinct(started, job);
  }

  lemma BooksOnRemoval(
      running: set<Job>, started: seq<Job>, ended: seq<Job>, completed: nat, maxjobs: nat, job: Job)
    requires BooksOk(running, started, ended, completed, maxjobs) && job in running
    ensures BooksOk(running - {job}, started, ended + [job], completed + 1, maxjobs)
  {
    AppendDistinct(ended, job);
  }

  lemma AppendDistinct(jobs: seq<Job>, job: Job)
    requires NoDuplicates(jobs) && job !in jobs
    ensures NoDuplicates(jobs + [job])
  {
  }

  class Jobset {
    var running: set<Job>
    var cancelled: bool
    var failures: nat
    var completed: nat
    var hashes: map<string, string>
    const maxjobs: nat
    const stopOnFailure: bool
    const cache: TestCache?   // null stands for NoCache
    const world: World
    const digest: string -> string  // the hash function

    ghost var specs: seq<JobSpec>      // accepted by Start, in order
    ghost var fates: seq<Fate>
    ghost var started: seq<Job>
    ghost var ended: seq<Job>          // in the order of their removal
    ghost var outcomes: seq<JobState>  // their states then
    ghost var reported: seq<Job>       // the jobs that told the cache of their success
    ghost const loaded: seq<Record>    // what the cache knew at the beginning
    ghost var texts: map<string, seq<string>>  // what the files of an identity held when hashed

    ghost predicate Books()
      reads `running, `started, `ended, `completed, `outcomes
    {
      BooksOk(running, started, ended, completed, maxjobs) && |outcomes| == |ended|
    }

    ghost function History(): seq<Record>
      reads cache
    {
      if cache == null then [] else cache.history
    }

    ghost predicate Accounted()
      reads `fates, `specs, `started, cache
    {
      FatesOk(fates, specs, started, cache != null && cache.useCacheResults, History())
    }

    /** The jobs in `reported` are the hashed ones that succeeded, each once. */
    ghost predicate Successes()
      reads `reported, `started, started
    {
      && NoDuplicates(reported)
      && (forall j | j in reported :: j in started && j.state == Success && j.binHash.Some?)
      && (forall j | j in started :: j.state == Success && j.binHash.Some? ==> j in reported)
    }

    /** The cache has heard of exactly those, in that order. */
    ghost predicate CacheTold()
      reads `reported, cache
    {
      && (forall i | 0 <= i < |reported| :: reported[i].binHash.Some?)
      && (cache != null ==>
            cache.Valid() && cache.world == world && cache.history == loaded + Reports(reported))
    }

    /** Nothing is left running once the run is cancelled; before that, nothing else is. */
    ghost predicate States()
      reads `running, `started, `cancelled, `ended, `outcomes, started
    {
      && (forall j | j in running && j in started :: if cancelled then Bad(j.state) else j.state == Running)
      && (forall i | 0 <= i < |ended| && i < |outcomes| && ended[i] in started ::
            ended[i].state == outcomes[i] != Running)
    }

    /** The states tell how the processes ended. */
    ghost predicate Exits()
      reads `started, started
    {
      forall j | j in started :: j.Honest()
    }

    /** Every accepted spec goes by the hash of its own identity, and that is the digest of what its
        files held. */
    ghost predicate Labels()
      reads `fates, `specs, `started, `hashes, `texts
    {
      && LabelsOk(fates, specs, started, hashes)
      && hashes.Keys == texts.Keys
      && forall id | id in hashes :: hashes[id] == digest(Concat(texts[id]))
    }

    ghost predicate Valid()
      reads this, started, cache
    {
      && Books() && Accounted() && Successes() && CacheTold() && States() && Exits() && Labels()
      && failures == CountBad(outcomes)
      && (stopOnFailure && failures > 0 ==> cancelled)
    }

    constructor (
        maxjobs: nat, stopOnFailure: bool, cache: TestCache?, world: World, digest: string -> string)
      requires maxjobs >= 1 && (cache != null ==> cache.Valid() && cache.world == world)
      ensures Valid() && this.cache == cache && this.world == world && this.digest == digest
      ensures this.maxjobs == maxjobs && this.stopOnFailure == stopOnFailure
      ensures specs == [] && started == [] && running == {} && !cancelled
      ensures loaded == if cache == null then [] else cache.history
    {
      running, cancelled, failures, completed, hashes := {}, false, 0, 0, map[];
      this.maxjobs, this.stopOnFailure := maxjobs, stopOnFailure;
      this.cache, this.world, this.digest := cache, world, digest;
      specs, fates, started, ended, outcomes, reported := [], [], [], [], [], [];
      texts := map[];
      loaded := if cache == null then [] else cache.history;
    }

    /** Kills every running job, in some order; `last` is where the loop variable ends up. */
    method KillAll(job: Job) returns (last: Job)
      requires job in running
      modifies running`state
      ensures last in running
      ensures forall j | j in running && old(j.Honest()) :: j.Honest()
      ensures forall j | j in running ::
        j.state == if old(j.state) == Running then Killed else old(j.state)
    {
      last := job;
      var todo := running;
      while todo != {}
        invariant todo <= running && last in running
        invariant forall j | j in running ::
          j.state == if j !in todo && old(j.state) == Running then Killed else old(j.state)
      {
        last :| last in todo;
        last.Kill();
        todo := todo - {last};
      }
    }

    /** Kills what is still running, and notes that the run is cancelled. */
    method CancelNow()
      requires Valid() && !cancelled
      modifies this`cancelled, running`state
      ensures Valid() && cancelled
    {
      hide Books, Accounted, CacheTold, Labels, Job.Honest, Reports, CountBad, NoDuplicates;
      if running != {} {
        var first :| first in running;
        var _ := KillAll(first);
      }
      cancelled := true;
    }

    /** Polls for cancellation; whoever is asked may say yes or no each time. */
    method Cancelled() returns (c: bool)
      requires Valid()
      modifies this`cancelled, running`state, world`asks
      ensures Valid() && c == cancelled
      ensures
        if old(cancelled) then cancelled && world.asks == old(world.asks)
        else world.asks == old(world.asks) + [cancelled]
    {
      hide Books, Accounted, Successes, CacheTold, States, Exits, Labels, CountBad;
      if cancelled {
        return true;
      }
      var asked := world.AskToCancel();
      if !asked {
        return false;
      }
      CancelNow();
      return true;
    }

    lemma ReportsGrow(job: Job)
      requires job.binHash.Some? && forall i | 0 <= i < |reported| :: reported[i].binHash.Some?
      ensures forall i | 0 <= i <= |reported| :: (reported + [job])[i].binHash.Some?
      ensures Reports(reported + [job]) ==
        Reports(reported) + [Record(job.spec.identity, job.binHash.value)]
    {
    }

    /** Takes in what polling the process of a running job has given, with the report to the cache
        that a success makes. */
    method TakeIn(job: Job, exit: Option<int>) returns (st: JobState)
      requires Valid() && job in running
      modifies this`reported, job, world`now, cache
      ensures Books() && Accounted() && Successes() && CacheTold() && Exits() && Labels()
      ensures st == job.state && world.now >= old(world.now)
      ensures st == Success <==>
        old(job.state) == Success || (old(job.state) == Running && exit == Some(0))
      ensures st == Failure <==>
        old(job.state) == Failure || (old(job.state) == Running && exit.Some? && exit.value != 0)
      ensures st == Killed <==>
        || old(job.state) == Killed
        || (old(job.state) == Running && exit.None? && world.now - job.start > job.spec.timeout)
      ensures job.code == if old(job.state) == Running && exit.Some? then exit else old(job.code)
      ensures reported == old(reported) +
        if old(job.state) == Running && st == Success && job.binHash.Some? then [job] else []
    {
      hide Labels, FatesOk, Reports, CountBad, NoDuplicates, Concat, Job.Honest, TestCache.Valid;
      st := job.State(exit, world, cache);
      ghost var news := old(job.state) == Running && st == Success && job.binHash.Some?;
      FatesSurviveReports(
        fates, specs, started, cache != null && cache.useCacheResults, old(History()),
        if news then [Record(job.spec.identity, job.binHash.value)] else []);
      assert Accounted();
      if news {
        ReportsGrow(job);
        AppendDistinct(reported, job);
        reported := reported + [job];
      }
    }

    /** Polls one running job. `exit` is what its process had to say. */
    method Poll(job: Job) returns (st: JobState, ghost exit: Option<int>)
      requires Valid() && job in running
      modifies this`reported, job, world`now, world`polls, cache
      ensures Books() && Accounted() && Successes() && CacheTold() && Exits() && Labels()
      ensures st == job.state && world.polls == old(world.polls) + [(job, exit)]
      ensures world.now >= old(world.now)
      ensures st == Success <==>
        old(job.state) == Success || (old(job.state) == Running && exit == Some(0))
      ensures st == Failure <==>
        old(job.state) == Failure || (old(job.state) == Running && exit.Some? && exit.value != 0)
      ensures st == Killed <==>
        || old(job.state) == Killed
        || (old(job.state) == Running && exit.None? && world.now - job.start > job.spec.timeout)
      ensures job.code == if old(job.state) == Running && exit.Some? then exit else old(job.code)
      ensures reported == old(reported) +
        if old(job.state) == Running && st == Success && job.binHash.Some? then [job] else []
    {
      hide Books, Accounted, Successes, CacheTold, States, Exits, Labels, CountBad;
      var polled := world.PollProcess(job);
      exit := polled;
      st := TakeIn(job, polled);
    }

    /** A dead job has been picked for removal: everything is in order but for the books, where it
        is still listed as running, while its failure, if it is one, has been counted. */
    ghost predicate Picked(dead: Job)
      reads this, started, cache
    {
      && Books() && Accounted() && Successes() && CacheTold() && Exits() && Labels()
      && dead in running && dead in started && dead.state != Running
      && (cancelled ==> Bad(dead.state))
      && (forall j | j in running && j in started && j != dead ::
            if cancelled then Bad(j.state) else j.state == Running)
      && (forall i | 0 <= i < |ended| && ended[i] in started :: ended[i].state == outcomes[i] != Running)
      && failures == CountBad(outcomes) + (if Bad(dead.state) then 1 else 0)
      && (stopOnFailure && failures > 0 ==> cancelled)
    }

    /** A failure is counted, and with `stopOnFailure` it kills the others; the job picked is the
        one the inner loop over the running jobs happens to end with. */
    method CountFailure(job: Job) returns (picked: Job)
      requires Books() && Accounted() && Successes() && CacheTold() && Exits() && Labels() && job in running
      requires Bad(job.state) && failures == CountBad(outcomes)
      requires forall j | j in running && j in started && j != job ::
        if cancelled then Bad(j.state) else j.state == Running
      requires forall i | 0 <= i < |ended| && ended[i] in started ::
        ended[i].state == outcomes[i] != Running
      modifies this`failures, this`cancelled, running
      ensures Picked(picked) && picked in running
      ensures failures == old(failures) + 1 && cancelled == (old(cancelled) || stopOnFailure)
    {
      hide Accounted, CacheTold, Labels, Reports, CountBad, NoDuplicates, Job.Honest;
      picked := job;
      failures := failures + 1;
      if stopOnFailure {
        cancelled := true;
        picked := KillAll(job);
        assert Successes();
      }
    }

    /** The body of the loop over the running jobs. */
    method Visit(job: Job) returns (dead: Option<Job>)
      requires Valid() && job in running
      modifies this`failures, this`cancelled, this`reported, running, world, cache
      ensures world.now >= old(world.now) && world.pauses == old(world.pauses)
      ensures old(cancelled) ==> dead.Some?
      ensures cancelled == (old(cancelled) || (stopOnFailure && failures > old(failures)))
      ensures if dead.None?
        then Valid() && failures == old(failures) && world.now - job.start <= job.spec.timeout
        else Picked(dead.value) && dead.value in running
    {
      hide Job.Honest, Reports, FatesOk, CountBad, NoDuplicates, LabelsOk, Concat;
      var st, _ := Poll(job);
      if st == Running {
        return None;
      }
      var picked := job;
      if Bad(st) {
        picked := CountFailure(job);
      }
      return Some(picked);
    }

    /** One walk over the running jobs, which stops at the first dead one. */
    method Walk() returns (dead: Option<Job>)
      requires Valid()
      modifies this`failures, this`cancelled, this`reported, running, world, cache
      ensures world.now >= old(world.now) && world.pauses == old(world.pauses)
      ensures cancelled == (old(cancelled) || (stopOnFailure && failures > old(failures)))
      ensures old(cancelled) && running != {} ==> dead.Some?
      ensures if dead.None?
        then Valid() && failures == old(failures)
             && forall j | j in running :: old(world.now) - j.start <= j.spec.timeout
        else Picked(dead.value) && dead.value in running
    {
      hide Books, Accounted, Successes, CacheTold, States, Exits, Labels, Picked;
      var todo := running;
      while todo != {}
        invariant todo <= running && Valid()
        invariant cancelled == old(cancelled) && failures == old(failures)
        invariant world.now >= old(world.now) && world.pauses == old(world.pauses)
        invariant cancelled ==> todo == running
        invariant forall j | j in running && j !in todo ::
          old(world.now) - j.start <= j.spec.timeout
      {
        var job :| job in todo;
        dead := Visit(job);
        if dead.Some? {
          return;
        }
        todo := todo - {job};
      }
      dead := None;
    }

    lemma AppendOutcome(st: JobState)
      ensures CountBad(outcomes + [st]) == CountBad(outcomes) + if Bad(st) then 1 else 0
    {
      assert (outcomes + [st])[..|outcomes|] == outcomes;
    }

    /** The loop over `dead`. */
    method Remove(dead: Job)
      requires Picked(dead)
      modifies this`completed, this`running, this`ended, this`outcomes
      ensures Valid()
      ensures running == old(running) - {dead} && completed == old(completed) + 1
      ensures ended == old(ended) + [dead] && outcomes == old(outcomes) + [dead.state]
    {
      hide Accounted, Successes, CacheTold, Exits, Labels, CountBad, NoDuplicates, BooksOk;
      AppendOutcome(dead.state);
      BooksOnRemoval(running, started, ended, completed, maxjobs, dead);
      completed := completed + 1;
      running := running - {dead};
      ended := ended + [dead];
      outcomes := outcomes + [dead.state];
      assert Books();
      assert States();
    }

    /** Waits for a job to end and removes it. It always comes back, since a job that does not end
        runs into its timeout; once the run is cancelled it does not even wait. */
    method Reap()
      requires Valid()
      modifies this`failures, this`cancelled, this`reported, this`completed, this`running, this`ended,
        this`outcomes, running, world, cache
      ensures Valid()
      ensures cancelled == (old(cancelled) || (stopOnFailure && failures > old(failures)))
      ensures if old(running) == {} then running == {} && completed == old(completed)
              else running < old(running) && |running| == |old(running)| - 1
                   && completed == old(completed) + 1
      ensures old(cancelled) ==> world.pauses == old(world.pauses)
    {
      hide Books, Accounted, Successes, CacheTold, States, Exits, Labels, Picked;
      if running == {} {
        return;
      }
      ghost var one :| one in running;
      while running != {}
        invariant Valid() && running == old(running) && completed == old(completed)
        invariant cancelled == old(cancelled) && failures == old(failures)
        invariant cancelled ==> world.pauses == old(world.pauses)
        decreases one.start + one.spec.timeout - world.now
      {
        var dead := Walk();
        if dead.Some? {
          Remove(dead.value);
          return;
        }
        world.Pause();
      }
    }

    /** The files of a spec, one after the other. */
    method ReadFiles(spec: JobSpec) returns (text: string, ghost contents: seq<string>)
      modifies world`files
      ensures |contents| == |spec.targets| && text == Concat(contents)
      ensures world.files == old(world.files) + Pairs(spec.targets, contents)
    {
      text, contents := "", [];
      for k := 0 to |spec.targets|
        invariant |contents| == k && text == Concat(contents)
        invariant world.files == old(world.files) + Pairs(spec.targets[..k], contents)
      {
        var content := world.ReadFile(spec.targets[k]);
        PairsGrow(spec.targets[..k], contents, spec.targets[k], content);
        assert spec.targets[..k + 1] == spec.targets[..k] + [spec.targets[k]];
        ghost var before := contents;
        contents := contents + [content];
        assert contents[..k] == before;
        text := text + content;
      }
      assert spec.targets[..|spec.targets|] == spec.targets;
    }

    /** The hash of the files of a spec; it is computed once per identity, from what the files then
        contain. */
    method HashOf(spec: JobSpec) returns (hash: string)
      requires Valid()
      modifies this`hashes, this`texts, world`files
      ensures Valid() && hashes == old(hashes)[spec.identity := hash]
      ensures
        if spec.identity in old(hashes)
        then
          hash == old(hashes)[spec.identity] && texts == old(texts) && world.files == old(world.files)
        else
          && texts.Keys == old(texts).Keys + {spec.identity}
          && |texts[spec.identity]| == |spec.targets|
          && world.files == old(world.files) + Pairs(spec.targets, texts[spec.identity])
          && hash == digest(Concat(texts[spec.identity]))
          && forall id | id in old(texts) :: texts[id] == old(texts)[id]
    {
      hide Books, Accounted, Successes, CacheTold, States, Exits, LabelsOk, Concat;
      if spec.identity in hashes {
        hash := hashes[spec.identity];
        assert hashes == hashes[spec.identity := hash];
      } else {
        var text, contents := ReadFiles(spec);
        hash := digest(text);
        LabelsSurvive(fates, specs, started, hashes, spec.identity, hash);
        hashes := hashes[spec.identity := hash];
        texts := texts[spec.identity := contents];
      }
    }

    /** Starts a job for the spec. */
    method Launch(spec: JobSpec, binHash: Option<string>)
      requires Valid() && !cancelled && |running| < maxjobs && RightLabel(spec, binHash, hashes)
      modifies this`running, this`specs, this`fates, this`started, world
      ensures Valid() && fresh(running - old(running)) && old(running) < running
      ensures specs == old(specs) + [spec] && fates == old(fates) + [Started(|old(started)|)]
      ensures |started| == |old(started)| + 1 && old(started) < started
      ensures
        var job := started[|old(started)|];
        fresh(job) && job.spec == spec && job.binHash == binHash && job.state == Running
    {
      hide Books, Accounted, Successes, CacheTold, States, Exits, Labels;
      var now := world.Time();
      var job := new Job(spec, binHash, now);
      Enlist(job);
    }

    /** Adds a new job to the running ones. */
    method Enlist(job: Job)
      requires Valid() && !cancelled && |running| < maxjobs
      requires job !in started && job.state == Running && job.Honest()
      requires RightLabel(job.spec, job.binHash, hashes)
      modifies this`running, this`specs, this`fates, this`started
      ensures Valid() && running == old(running) + {job} && started == old(started) + [job]
      ensures specs == old(specs) + [job.spec] && fates == old(fates) + [Started(|old(started)|)]
    {
      hide CacheTold, FatesOk, NoDuplicates, BooksOk, LabelsOk, Concat, Job.Honest;
      FatesOnStart(job);
      BooksOnStart(running, started, ended, completed, maxjobs, job);
      LabelsGrow(fates, specs, started, hashes, Started(|started|), job.spec, [job]);
      running := running + {job};
      specs, fates, started := specs + [job.spec], fates + [Started(|started|)], started + [job];
    }

    /** Whether the spec must be run, and the hash of its files if it has any to speak of. */
    method Decide(spec: JobSpec) returns (shouldRun: bool, binHash: Option<string>)
      requires Valid()
      modifies this`hashes, this`texts, world`files
      ensures Valid() && RightLabel(spec, binHash, hashes)
      ensures hashes == if spec.targets != [] then old(hashes)[spec.identity := binHash.value] else old(hashes)
      ensures forall id | id in old(texts) :: id in texts && texts[id] == old(texts)[id]
      ensures !shouldRun <==>
        spec.targets != [] && cache != null && !cache.ShouldRun(spec.identity, binHash.value)
    {
      hide Books, Accounted, Successes, States, Exits, Labels, Reports;
      shouldRun, binHash := true, None;
      if spec.targets != [] {
        var hash := HashOf(spec);
        binHash := Some(hash);
        if cache != null {
          shouldRun := cache.ShouldRun(spec.identity, hash);
        }
      }
    }

    lemma FatesOnStart(job: Job)
      requires Accounted()
      ensures FatesOk(
                fates + [Started(|started|)], specs + [job.spec], started + [job],
                cache != null && cache.useCacheResults, History())
    {
      FatesGrow(fates, specs, started, cache != null && cache.useCacheResults, History(),
                Started(|started|), job.spec, [job]);
    }

    method Skip(spec: JobSpec, hash: string)
      requires Valid() && spec.targets != [] && cache != null && !cache.ShouldRun(spec.identity, hash)
      requires RightLabel(spec, Some(hash), hashes)
      modifies this`specs, this`fates
      ensures Valid() && specs == old(specs) + [spec]
      ensures fates == old(fates) + [Skipped(hash, |cache.history|)]
    {
      hide Books, Successes, CacheTold, States, Exits, FatesOk, LabelsOk, Concat;
      ghost var fate := Skipped(hash, |cache.history|);
      assert cache.history[..|cache.history|] == cache.history;
      FatesGrow(fates, specs, started, cache != null && cache.useCacheResults, History(),
                fate, spec, []);
      LabelsGrow(fates, specs, started, hashes, fate, spec, []);
      assert started + [] == started;
      specs, fates := specs + [spec], fates + [fate];
      assert Accounted();
    }

    /** Waits until there is room for another job; false when the run is cancelled meanwhile. */
    method MakeRoom() returns (ok: bool)
      requires Valid()
      modifies this`failures, this`cancelled, this`reported, this`completed, this`running, this`ended,
        this`outcomes, running, world, cache
      ensures Valid() && (old(cancelled) ==> cancelled) && running <= old(running)
      ensures if ok then |running| < maxjobs else cancelled
    {
      hide Accounted, Successes, CacheTold, States, Exits, Labels;
      while |running| >= maxjobs
        invariant Valid() && (old(cancelled) ==> cancelled) && running <= old(running)
        decreases |running|
      {
        var stop := Cancelled();
        if stop {
          return false;
        }
        Reap();
      }
      ok := true;
    }

    /** Runs the spec, or skips it on the word of the cache. */
    method Admit(spec: JobSpec)
      requires Valid() && !cancelled && |running| < maxjobs
      modifies this`running, this`specs, this`fates, this`started, this`hashes, this`texts, world
      ensures Valid() && specs == old(specs) + [spec]
      ensures |fates| == |old(fates)| + 1 && old(fates) <= fates
      ensures old(started) <= started && fresh(running - old(running))
      ensures forall k | |old(started)| <= k < |started| :: fresh(started[k])
      ensures spec.targets != [] ==> spec.identity in hashes
      ensures fates[|fates| - 1].Skipped? <==>
        spec.targets != [] && cache != null && !cache.ShouldRun(spec.identity, hashes[spec.identity])
    {
      hide Books, Accounted, Successes, States, Exits, Labels, Reports;
      var shouldRun, binHash := Decide(spec);
      if shouldRun {
        Launch(spec, binHash);
      } else {
        Skip(spec, binHash.value);
      }
    }

    /** Hands a job to the scheduler. It is refused only when the run has been cancelled. */
    method Start(spec: JobSpec) returns (ok: bool)
      requires Valid()
      modifies this, running, world, cache
      ensures Valid() && ok == !cancelled && (old(cancelled) ==> cancelled)
      ensures specs == old(specs) + if ok then [spec] else []
      ensures ok ==> |fates| == |old(fates)| + 1 && old(fates) <= fates
      ensures !ok ==> fates == old(fates)
      ensures old(started) <= started && fresh(running - old(running))
      ensures forall k | |old(started)| <= k < |started| :: fresh(started[k])
      ensures ok && spec.targets != [] ==> spec.identity in hashes
      ensures ok ==>
        (fates[|fates| - 1].Skipped? <==>
          spec.targets != [] && cache != null && !cache.ShouldRun(spec.identity, hashes[spec.identity]))
    {
      hide Books, Accounted, Successes, CacheTold, States, Exits, Labels;
      var room := MakeRoom();
      if !room {
        return false;
      }
      var stop := Cancelled();
      if stop {
        return false;
      }
      Admit(spec);
      ok := true;
    }

    /** Waits for all jobs to end. Every round removes one job, so there are as many rounds as jobs;
        a cancelled run is drained without sleeping once. */
    method Finish() returns (ok: bool)
      requires Valid()
      modifies this`failures, this`cancelled, this`reported, this`completed, this`running, this`ended,
        this`outcomes, running, world, cache
      ensures Valid() && running == {} && (old(cancelled) ==> cancelled)
      ensures completed == old(completed) + |old(running)|
      ensures ok <==> !cancelled && failures == 0
      ensures old(cancelled) ==> world.pauses == old(world.pauses)
    {
      hide Accounted, Successes, CacheTold, States, Exits, Labels, Books;
      while running != {}
        invariant Valid() && (old(cancelled) ==> cancelled) && running <= old(running)
        invariant completed + |running| == old(completed) + |old(running)|
        invariant old(cancelled) ==> world.pauses == old(world.pauses)
        decreases |running|
      {
        var _ := Cancelled();
        Reap();
      }
      var stop := Cancelled();
      ok := !stop && failures == 0;
    }

    /** Some rounds of the loop that waits for jobs to end. */
    method ReapSome(rounds: nat)
      requires Valid()
      modifies this`failures, this`cancelled, this`reported, this`completed, this`running, this`ended,
        this`outcomes, running, world, cache
      ensures Valid() && (old(cancelled) ==> cancelled) && running <= old(running)
    {
      hide Accounted, Successes, CacheTold, States, Exits, Labels, Books;
      for n := 0 to rounds
        invariant Valid() && (old(cancelled) ==> cancelled) && running <= old(running)
      {
        var _ := Cancelled();
        Reap();
      }
    }

    /** Being in state SUCCESS is having exited with 0. */
    lemma SuccessIsExitZero()
      requires Valid()
      ensures forall j | j in started :: j.state == Success <==> j.code == Some(0)
    {
      forall j | j in started
        ensures j.state == Success <==> j.code == Some(0)
      {
        assert j.Honest();
      }
    }

    /** The failure counter is zero exactly when every job succeeded, although the job removed need
        not be the one whose failure was counted. */
    lemma FailuresTell()
      requires Valid() && running == {}
      ensures failures == 0 <==> forall j | j in started :: j.state == Success
    {
      NoBadOutcome(outcomes);
      if failures == 0 {
        forall j | j in started
          ensures j.state == Success
        {
          var i :| 0 <= i < |ended| && ended[i] == j;
        }
      } else {
        var i :| 0 <= i < |outcomes| && Bad(outcomes[i]);
        assert ended[i] in started;
      }
    }

    /** Each spec that was accepted has the fate it deserves. */
    ghost predicate Settled(i: nat)
      requires Valid() && i < |specs|
      reads this, started, cache
    {
      match fates[i]
      case Started(at) =>
        at < |started| && started[at].spec == specs[i] && started[at].code == Some(0)
      case Skipped(hash, known) =>
        && cache != null && cache.useCacheResults && specs[i].targets != [] && known <= |cache.history|
        && LastOf(cache.history[..known], specs[i].identity, hash)
    }

    /** What the scheduler keeps between any two calls. */
    lemma SchedulerBounds()
      requires Valid()
      ensures |running| <= maxjobs
      ensures completed + |running| == |started|
      ensures failures <= completed
      ensures stopOnFailure && failures > 0 ==> cancelled
      ensures forall j | j in running :: if cancelled then Bad(j.state) else j.state == Running
    {
      BadAreSome(outcomes);
    }

    /** The cache has heard of exactly the hashed jobs that succeeded, of each once, in some order,
        and of nothing else since the beginning. */
    lemma CacheHeard()
      requires Valid()
      ensures NoDuplicates(reported)
      ensures forall j ::
        j in reported <==> j in started && j.state == Success && j.binHash.Some?
      ensures forall i | 0 <= i < |reported| :: reported[i].binHash.Some?
      ensures cache != null ==> cache.Valid() && cache.history == loaded + Reports(reported)
    {
    }

    lemma AllSettled(i: nat)
      requires Valid() && i < |specs| && forall j | j in started :: j.code == Some(0)
      ensures Settled(i)
    {
      assert FateOk(
          fates[i], CountStarted(fates[..i]), specs[i], started,
          cache != null && cache.useCacheResults, History());
    }

    /** Nothing is skipped without cause: what the cache went by was loaded from an earlier run, or
        is the success, reported before the spec was skipped, of a job of this run with the same
        identity and the same hash. */
    lemma SkipIsEarned(i: nat)
      requires Valid() && i < |specs|
      ensures fates[i].Skipped? ==>
        cache != null && cache.useCacheResults && specs[i].targets != []
      ensures fates[i].Skipped? ==>
        || Record(specs[i].identity, fates[i].hash) in loaded
        || exists x :: 0 <= x < |reported| && |loaded| + x < fates[i].known
             && reported[x] in started && reported[x].state == Success
             && reported[x].binHash == Some(fates[i].hash)
             && reported[x].spec.identity == specs[i].identity
    {
      if fates[i].Skipped? {
        assert FateOk(
            fates[i], CountStarted(fates[..i]), specs[i], started,
            cache != null && cache.useCacheResults, History());
        var k :| 0 <= k < fates[i].known
          && cache.history[k] == Record(specs[i].identity, fates[i].hash);
        if k >= |loaded| {
          assert reported[k - |loaded|] in reported;
        } else {
          assert loaded[k] in loaded;
        }
      }
    }
  }

  lemma {:induction false} BadAreSome(outcomes: seq<JobState>)
    ensures CountBad(outcomes) <= |outcomes|
  {
    if outcomes != [] {
      BadAreSome(outcomes[..|outcomes| - 1]);
    }
  }

  lemma {:induction false} NoBadOutcome(outcomes: seq<JobState>)
    ensures CountBad(outcomes) == 0 <==> forall i | 0 <= i < |outcomes| :: !Bad(outcomes[i])
  {
    if outcomes != [] {
      NoBadOutcome(outcomes[..|outcomes| - 1]);
    }
  }

  /** Runs the jobs in order. The verdict is true exactly when nobody cancelled the run and every job
      started has succeeded; then every spec was started as a job, or skipped because the cache knew
      of an earlier success of a job with the same identity and hash. */
  method Run(
      cmdlines: seq<JobSpec>, maxjobs: nat, stopOnFailure: bool, cache: TestCache?, world: World,
      digest: string -> string)
    returns (ok: bool, js: Jobset)
    requires maxjobs >= 1 && (cache != null ==> cache.Valid() && cache.world == world)
    modifies world, cache
    ensures fresh(js) && forall k | 0 <= k < |js.started| :: fresh(js.started[k])
    ensures js.Valid() && js.cache == cache && js.running == {}
    ensures js.specs <= cmdlines && js.digest == digest && js.Labels()
    ensures ok <==> !js.cancelled && forall j | j in js.started :: j.code == Some(0)
    ensures forall j | j in js.started :: j.state == Success <==> j.code == Some(0)
    ensures js.maxjobs == maxjobs && js.stopOnFailure == stopOnFailure
    ensures ok ==> js.specs == cmdlines && forall i | 0 <= i < |cmdlines| :: js.Settled(i)
    ensures cache != null ==>
      cache.Valid() && cache.history == old(cache.history) + Reports(js.reported)
    ensures js.loaded == if cache == null then [] else old(cache.history)
    ensures NoDuplicates(js.reported) && forall j ::
      j in js.reported <==> j in js.started && j.code == Some(0) && j.binHash.Some?
  {
    hide Jobset.Books, Jobset.Accounted, Jobset.Successes, Jobset.CacheTold, Jobset.States,
         Jobset.Exits, Jobset.Labels, Jobset.Settled, Reports, NoDuplicates;
    js := new Jobset(maxjobs, stopOnFailure, cache, world, digest);
    var i := 0;
    while i < |cmdlines|
      invariant 0 <= i <= |cmdlines|
      invariant fresh(js) && fresh(js.running)
      invariant forall k | 0 <= k < |js.started| :: fresh(js.started[k])
      invariant js.Valid() && js.cache == cache && js.world == world
      invariant js.maxjobs == maxjobs && js.stopOnFailure == stopOnFailure
      invariant js.specs == cmdlines[..i] && !js.cancelled
      invariant js.digest == digest && js.loaded == if cache == null then [] else old(cache.history)
    {
      var started := js.Start(cmdlines[i]);
      if !started {
        break;
      }
      i := i + 1;
    }
    ok := js.Finish();
    js.FailuresTell();
    js.SuccessIsExitZero();
    js.CacheHeard();
    if ok {
      forall k | 0 <= k < |cmdlines|
        ensures js.Settled(k)
      {
        js.AllSettled(k);
      }
    }
  }

  /** A run whose process dies on the way: after some jobs have been handed over and some more have
      been reaped. What the cache knows changes nowhere else, so nothing is lost by looking at these
      moments only. */
  method RunPartly(
      cmdlines: seq<JobSpec>, maxjobs: nat, stopOnFailure: bool, cache: TestCache?, world: World,
      digest: string -> string, starts: nat, reaps: nat)
    returns (js: Jobset)
    requires maxjobs >= 1 && (cache != null ==> cache.Valid() && cache.world == world)
    modifies world, cache
    ensures fresh(js) && forall k | 0 <= k < |js.started| :: fresh(js.started[k])
    ensures js.Valid() && js.cache == cache
    ensures js.specs <= cmdlines && js.digest == digest && js.Labels()
    ensures cache != null ==>
      cache.Valid() && cache.history == old(cache.history) + Reports(js.reported)
    ensures js.loaded == if cache == null then [] else old(cache.history)
    ensures js.maxjobs == maxjobs && js.stopOnFailure == stopOnFailure
  {
    hide Jobset.Books, Jobset.Accounted, Jobset.Successes, Jobset.CacheTold, Jobset.States,
         Jobset.Exits, Jobset.Labels, Reports, NoDuplicates;
    js := new Jobset(maxjobs, stopOnFailure, cache, world, digest);
    var i := 0;
    while i < |cmdlines| && i < starts
      invariant 0 <= i <= |cmdlines|
      invariant fresh(js) && fresh(js.running)
      invariant forall k | 0 <= k < |js.started| :: fresh(js.started[k])
      invariant js.Valid() && js.cache == cache && js.world == world
      invariant js.maxjobs == maxjobs && js.stopOnFailure == stopOnFailure
      invariant js.specs == cmdlines[..i] && !js.cancelled
      invariant js.digest == digest && js.loaded == if cache == null then [] else old(cache.history)
    {
      var started := js.Start(cmdlines[i]);
      if !started {
        break;
      }
      i := i + 1;
    }
    js.ReapSome(reaps);
    js.CacheHeard();
  }
}
