/** Suite after suite on one cache, and process after process on one cache file: what the cache knows
    was always earned by a job that succeeded. */
module Suites {
  import opened Worlds
  import opened Jobsets
  import opened TestCaches
  import opened Wrappers

  /** What happens, one after the other: the build steps are run, without the cache; a suite is run,
      with the cache or without it; the process ends between two suites, or dies within one, after
      handing over at most `starts` jobs and reaping up to `reaps` more, and another one is
      started. */
  datatype Event =
    | Build(cmdlines: seq<JobSpec>)
    | Suite(cmdlines: seq<JobSpec>, maxjobs: nat, stopOnFailure: bool, cached: bool)
    | Crash(
        cmdlines: seq<JobSpec>, maxjobs: nat, stopOnFailure: bool, cached: bool,
        starts: nat, reaps: nat, useCacheResults: bool)
    | Restart(useCacheResults: bool)

  /** The specs of the runs that the events begin. */
  function SpecsOf(events: seq<Event>): seq<seq<JobSpec>> {
    if events == [] then []
    else
      var last := events[|events| - 1];
      SpecsOf(events[..|events| - 1]) + if last.Restart? then [] else [last.cmdlines]
  }

  ghost predicate Succeeded(j: Job, r: Record)
    reads j
  {
    j.code == Some(0) && j.spec.identity == r.cmdline && j.binHash == Some(r.hash)
  }

  /** Some job of one of the runs, with the identity and the hash of the record, exited with 0. */
  ghost predicate Earned(r: Record, runs: seq<Jobset>)
    reads runs, set js, j | js in runs && j in js.started :: j
  {
    exists k, j :: 0 <= k < |runs| && j in runs[k].started && Succeeded(j, r)
  }

  /** A job of the run itself earned the record, and the cache heard of it while it still had less
      than `known` records. */
  ghost predicate EarnedHere(r: Record, run: Jobset, known: nat)
    reads run, set js, j | js in [run] && j in js.started :: j
  {
    exists x :: 0 <= x < |run.reported| && |run.loaded| + x < known
      && run.reported[x] in run.started && Succeeded(run.reported[x], r)
  }

  /** Whatever the run skipped had been earned by then, in the runs before or in the run itself. */
  ghost predicate SkipsEarned(run: Jobset, runs: seq<Jobset>)
    reads run, runs, set js, j | js in [run] + runs && j in js.started :: j
  {
    && |run.fates| == |run.specs|
    && forall i | 0 <= i < |run.specs| && run.fates[i].Skipped? ::
         var r := Record(run.specs[i].identity, run.fates[i].hash);
         run.specs[i].targets != [] && (Earned(r, runs) || EarnedHere(r, run, run.fates[i].known))
  }

  lemma EarnedStays(r: Record, runs: seq<Jobset>, js: Jobset)
    requires Earned(r, runs)
    ensures Earned(r, runs + [js])
  {
    var k, j :| 0 <= k < |runs| && j in runs[k].started && Succeeded(j, r);
    assert (runs + [js])[k] == runs[k];
  }

  /** What the last run told the cache was earned by its own jobs. */
  lemma ReportsAreEarned(js: Jobset, runs: seq<Jobset>, r: Record)
    requires js.Valid() && r in Reports(js.reported)
    ensures Earned(r, runs + [js])
  {
    var i :| 0 <= i < |js.reported| && Reports(js.reported)[i] == r;
    assert js.reported[i] in js.reported;
    assert (runs + [js])[|runs|] == js && Succeeded(js.reported[i], r);
  }

  /** And what it skipped was earned before. */
  lemma SkipsAreEarned(js: Jobset, runs: seq<Jobset>)
    requires js.Valid() && forall r | r in js.loaded :: Earned(r, runs)
    ensures SkipsEarned(js, runs)
  {
    hide Earned;
    forall i | 0 <= i < |js.specs| && js.fates[i].Skipped?
      ensures js.specs[i].targets != []
      ensures
        var r := Record(js.specs[i].identity, js.fates[i].hash);
        Earned(r, runs) || EarnedHere(r, js, js.fates[i].known)
    {
      js.SkipIsEarned(i);
      var r := Record(js.specs[i].identity, js.fates[i].hash);
      if r !in js.loaded {
        var x :| 0 <= x < |js.reported| && |js.loaded| + x < js.fates[i].known
          && js.reported[x] in js.started && Succeeded(js.reported[x], r);
      }
    }
  }

  /** The list of runs grows by one. */
  lemma {:induction false} RunJoins(js: Jobset, runs: seq<Jobset>, before: seq<Record>)
    requires js.Valid() && forall r | r in before :: Earned(r, runs)
    requires js.loaded == if js.cache == null then [] else before
    requires js.cache != null ==> js.cache.history == before + Reports(js.reported)
    ensures forall r | r in before :: Earned(r, runs + [js])
    ensures js.cache != null ==> forall r | r in js.cache.history :: Earned(r, runs + [js])
    ensures SkipsEarned(js, runs)
  {
    hide Earned, Reports, Jobset.Valid, Succeeded, SkipsEarned;
    forall r | r in before
      ensures Earned(r, runs + [js])
    {
      EarnedStays(r, runs, js);
    }
    SkipsAreEarned(js, runs);
    if js.cache != null {
      forall r | r in js.cache.history
        ensures Earned(r, runs + [js])
      {
        if r !in before {
          ReportsAreEarned(js, runs, r);
        }
      }
    }
  }

  /** Nothing was skipped, in any of the runs, that had not been earned by then. */
  ghost predicate AllEarned(runs: seq<Jobset>)
    reads runs, set js, j | js in runs && j in js.started :: j
  {
    forall k | 0 <= k < |runs| :: SkipsEarned(runs[k], runs[..k])
  }

  lemma AllStayEarned(js: Jobset, runs: seq<Jobset>)
    requires AllEarned(runs) && SkipsEarned(js, runs)
    ensures AllEarned(runs + [js])
  {
    hide SkipsEarned;
    var all := runs + [js];
    forall k | 0 <= k < |all|
      ensures SkipsEarned(all[k], all[..k])
    {
      assert all[..k] == if k < |runs| then runs[..k] else runs;
    }
  }

  /** There is one run for each of the events that begin one; it accepted its specs up to some point,
      and started or skipped each with the digest of what the files of the spec held. */
  ghost predicate Follow(runs: seq<Jobset>, events: seq<Event>, digest: string -> string)
    reads runs
  {
    && |runs| == |SpecsOf(events)|
    && forall k | 0 <= k < |runs| ::
         runs[k].specs <= SpecsOf(events)[k] && runs[k].digest == digest && runs[k].Labels()
  }

  lemma FollowsOn(
      runs: seq<Jobset>, events: seq<Event>, digest: string -> string, e: Event, more: seq<Jobset>)
    requires Follow(runs, events, digest)
    requires |more| == if e.Restart? then 0 else 1
    requires !e.Restart? ==>
      more[0].specs <= e.cmdlines && more[0].digest == digest && more[0].Labels()
    ensures Follow(runs + more, events + [e], digest)
  {
    hide Jobset.Labels;
    assert (events + [e])[..|events|] == events;
  }

  /** The cache holds only what was earned. */
  ghost predicate Honest(cache: TestCache, runs: seq<Jobset>)
    reads cache, runs, set js, j | js in runs && j in js.started :: j
  {
    cache.Valid() && forall r | r in cache.history :: Earned(r, runs)
  }

  /** So does its file, and it keeps a job from being run only if caching is on and a job with that
      identity and that hash has succeeded. */
  lemma {:induction false} HonestCache(cache: TestCache, runs: seq<Jobset>)
    requires Honest(cache, runs)
    ensures cache.file.Some? ==> forall r | r in cache.file.value :: Earned(r, runs)
    ensures forall id, hash ::
      !cache.ShouldRun(id, hash) ==> cache.useCacheResults && Earned(Record(id, hash), runs)
  {
    hide Earned;
    forall id, hash | !cache.ShouldRun(id, hash)
      ensures cache.useCacheResults && Earned(Record(id, hash), runs)
    {
      assert Record(id, hash) in cache.history;
    }
  }

  /** The build steps, one at a time. */
  method RunBuild(
      cmdlines: seq<JobSpec>, cache: TestCache, world: World, digest: string -> string,
      ghost runs: seq<Jobset>)
    returns (ok: bool, js: Jobset)
    requires Honest(cache, runs) && AllEarned(runs)
    modifies world
    ensures fresh(js) && js.specs <= cmdlines && js.digest == digest && js.Labels()
    ensures js.maxjobs == 1 && !js.stopOnFailure && js.cache == null
    ensures ok <==> !js.cancelled && forall j | j in js.started :: j.code == Some(0)
    ensures Honest(cache, runs + [js]) && AllEarned(runs + [js])
  {
    hide Earned, SkipsEarned, AllEarned, Jobset.Valid, Jobset.Labels, TestCache.Valid, Reports;
    ok, js := Run(cmdlines, 1, false, null, world, digest);
    RunJoins(js, runs, cache.history);
    AllStayEarned(js, runs);
  }

  /** One suite. A good one ends with saving the cache, even if it was run without it. */
  method RunSuite(
      suite: Event, cache: TestCache, world: World, digest: string -> string, ghost runs: seq<Jobset>)
    returns (ok: bool, js: Jobset)
    requires suite.Suite? && suite.maxjobs >= 1 && Honest(cache, runs) && AllEarned(runs)
    requires cache.world == world
    modifies world, cache
    ensures fresh(js) && js.specs <= suite.cmdlines && js.digest == digest && js.Labels()
    ensures js.maxjobs == suite.maxjobs && js.stopOnFailure == suite.stopOnFailure
    ensures js.cache == if suite.cached then cache else null
    ensures ok <==> !js.cancelled && forall j | j in js.started :: j.code == Some(0)
    ensures Honest(cache, runs + [js]) && AllEarned(runs + [js])
    ensures ok ==> cache.file.Some? && IsDump(cache.file.value, cache.lastSuccessfulRun)
  {
    hide Earned, SkipsEarned, AllEarned, Jobset.Valid, Jobset.Labels, Reports, IsDump;
    ghost var before := cache.history;
    ok, js := Run(
      suite.cmdlines, suite.maxjobs, suite.stopOnFailure, if suite.cached then cache else null,
      world, digest);
    RunJoins(js, runs, before);
    AllStayEarned(js, runs);
    if ok {
      cache.Save();
    }
  }

  /** A suite in the middle of which the process dies. */
  method RunCrashed(
      suite: Event, cache: TestCache, world: World, digest: string -> string, ghost runs: seq<Jobset>)
    returns (js: Jobset)
    requires suite.Crash? && suite.maxjobs >= 1 && Honest(cache, runs) && AllEarned(runs)
    requires cache.world == world
    modifies world, cache
    ensures fresh(js) && js.specs <= suite.cmdlines && js.digest == digest && js.Labels()
    ensures js.maxjobs == suite.maxjobs && js.stopOnFailure == suite.stopOnFailure
    ensures js.cache == if suite.cached then cache else null
    ensures Honest(cache, runs + [js]) && AllEarned(runs + [js])
  {
    hide Earned, SkipsEarned, AllEarned, Jobset.Valid, Jobset.Labels, TestCache.Valid, Reports;
    ghost var before := cache.history;
    js := RunPartly(
      suite.cmdlines, suite.maxjobs, suite.stopOnFailure, if suite.cached then cache else null,
      world, digest, suite.starts, suite.reaps);
    RunJoins(js, runs, before);
    AllStayEarned(js, runs);
  }

  /** The record is the last one of its identity, and was made more than a second after the cache was
      last saved. */
  ghost predicate Due(cache: TestCache, k: nat)
    reads cache
  {
    && k < |cache.history| == |cache.times|
    && cache.times[k] > cache.lastSave + cache.world.perSecond
    && forall j | k < j < |cache.history| :: cache.history[j].cmdline != cache.history[k].cmdline
  }

  /** Such a record is not lost: the next process goes by it. */
  ghost predicate KnownAgain(earlier: TestCache, k: nat, next: TestCache)
    reads earlier, next
  {
    Due(earlier, k) ==>
      LastOf(next.history, earlier.history[k].cmdline, earlier.history[k].hash)
  }

  /** The next process starts with what the last one left in the file. */
  method StartOver(earlier: TestCache, useCacheResults: bool, ghost runs: seq<Jobset>)
    returns (cache: TestCache)
    requires Honest(earlier, runs)
    modifies earlier.world`now
    ensures fresh(cache) && Honest(cache, runs) && cache.useCacheResults == useCacheResults
    ensures cache.world == earlier.world && cache.file == earlier.file
    ensures cache.history == if earlier.file.Some? then earlier.file.value else []
    ensures forall k | 0 <= k < |earlier.history| :: KnownAgain(earlier, k, cache)
  {
    hide Earned, LastOf;
    assert forall r | r in earlier.history :: Earned(r, runs);
    cache := new TestCache(useCacheResults, earlier.file, earlier.world);
    forall k | 0 <= k < |earlier.history|
      ensures KnownAgain(earlier, k, cache)
    {
      if Due(earlier, k) {
        earlier.FileIsRecent(k);
      }
    }
  }

  method Handle(
      e: Event, cache: TestCache, world: World, digest: string -> string, ghost runs: seq<Jobset>)
    returns (next: TestCache, more: seq<Jobset>)
    requires e.Suite? || e.Crash? ==> e.maxjobs >= 1
    requires Honest(cache, runs) && AllEarned(runs) && cache.world == world
    modifies world, cache
    ensures next.world == world
    ensures Honest(next, runs + more) && AllEarned(runs + more) && (next == cache || fresh(next))
    ensures |more| == if e.Restart? then 0 else 1
    ensures !e.Restart? ==>
      more[0].specs <= e.cmdlines && more[0].digest == digest && more[0].Labels()
  {
    hide Earned, AllEarned, Honest, TestCache.Valid, IsDump, Jobset.Labels;
    next, more := cache, [];
    match e
    case Build(cmdlines) =>
      var _, js := RunBuild(cmdlines, cache, world, digest, runs);
      more := [js];
    case Suite(_, _, _, _) =>
      var _, js := RunSuite(e, cache, world, digest, runs);
      more := [js];
    case Crash(_, _, _, _, _, _, use) =>
      var js := RunCrashed(e, cache, world, digest, runs);
      next := StartOver(cache, use, runs + [js]);
      more := [js];
    case Restart(use) =>
      next := StartOver(cache, use, runs);
      assert runs + more == runs;
  }

  /** Any number of events, beginning without a cache file. At the end, as at any time before, the
      cache and its file hold only what some job of the runs so far has earned. So the cache keeps a
      job from being run only if caching is on and a job with that identity and that hash has
      succeeded; and no run has ever skipped anything that had not been earned by then. */
  method Live(events: seq<Event>, useCacheResults: bool, world: World, digest: string -> string)
    returns (cache: TestCache, runs: seq<Jobset>)
    requires forall e | e in events :: e.Suite? || e.Crash? ==> e.maxjobs >= 1
    modifies world
    ensures cache.Valid()
    ensures forall r | r in cache.history :: Earned(r, runs)
    ensures cache.file.Some? ==> forall r | r in cache.file.value :: Earned(r, runs)
    ensures forall id, hash ::
      !cache.ShouldRun(id, hash) ==> cache.useCacheResults && Earned(Record(id, hash), runs)
    ensures AllEarned(runs) && Follow(runs, events, digest)
  {
    hide Earned, AllEarned, Follow, TestCache.Valid, IsDump;
    cache := new TestCache(useCacheResults, None, world);
    runs := [];
    NothingYet(cache, digest);
    for n := 0 to |events|
      invariant fresh(cache) && cache.world == world && Honest(cache, runs)
      invariant AllEarned(runs) && Follow(runs, events[..n], digest)
    {
      hide Honest;
      assert events[..n + 1] == events[..n] + [events[n]];
      var more;
      cache, more := Handle(events[n], cache, world, digest, runs);
      FollowsOn(runs, events[..n], digest, events[n], more);
      runs := runs + more;
    }
    assert events[..|events|] == events;
    HonestCache(cache, runs);
  }

  lemma NothingYet(cache: TestCache, digest: string -> string)
    requires cache.Valid() && cache.history == []
    ensures Honest(cache, []) && AllEarned([]) && Follow([], [], digest)
  {
  }
}
