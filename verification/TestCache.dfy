/** The cache of successful test runs, and the file it is saved to. */
module TestCaches {
  import opened Worlds
  import opened Wrappers

  /** One record of the dump: the identity of a job and the hash of its files. */
  datatype Record = Record(cmdline: string, hash: string)

  /** The dictionary that a list of records turns into: of two records of one job, the later one
      counts. */
  function Parsed(records: seq<Record>): map<string, string> {
    if records == [] then map[]
    else
      var last := records[|records| - 1];
      Parsed(records[..|records| - 1])[last.cmdline := last.hash]
  }

  /** The last record of `id` in the list is `hash`. */
  ghost predicate LastOf(records: seq<Record>, id: string, hash: string) {
    exists i :: 0 <= i < |records| && records[i] == Record(id, hash)
      && forall j | i < j < |records| :: records[j].cmdline != id
  }

  /** One more record takes the place of all earlier ones of its identity. */
  lemma LastOfStep(front: seq<Record>, last: Record, id: string, hash: string)
    ensures LastOf(front + [last], id, hash) <==>
      if last.cmdline == id then last.hash == hash else LastOf(front, id, hash)
  {
    var records, n := front + [last], |front|;
    if LastOf(records, id, hash) {
      var i :| 0 <= i < |records| && records[i] == Record(id, hash)
        && forall j | i < j < |records| :: records[j].cmdline != id;
      assert records[n] == last;
      if i < n {
        assert last.cmdline != id;
        assert front[i] == records[i];
        assert forall j | i < j < n :: front[j] == records[j];
      }
    }
    if last == Record(id, hash) {
      assert records[n] == Record(id, hash);
    } else if last.cmdline != id && LastOf(front, id, hash) {
      var i :| 0 <= i < n && front[i] == Record(id, hash)
        && forall j | i < j < n :: front[j].cmdline != id;
      assert records[i] == Record(id, hash);
      assert forall j | i < j < |records| :: records[j] == if j < n then front[j] else last;
    }
  }

  lemma {:induction false} ParsedIsLast(records: seq<Record>, id: string, hash: string)
    ensures id in Parsed(records) && Parsed(records)[id] == hash <==> LastOf(records, id, hash)
  {
    if records != [] {
      var front, last := records[..|records| - 1], records[|records| - 1];
      ParsedIsLast(front, id, hash);
      LastOfStep(front, last, id, hash);
      assert records == front + [last];
      hide LastOf;
    }
  }

  /** A dump of `m`: its items, each once, in some order. */
  ghost predicate IsDump(records: seq<Record>, m: map<string, string>) {
    && (forall i, j | 0 <= i < j < |records| :: records[i].cmdline != records[j].cmdline)
    && (forall i | 0 <= i < |records| ::
          records[i].cmdline in m && m[records[i].cmdline] == records[i].hash)
    && (forall k | k in m :: exists i :: 0 <= i < |records| && records[i].cmdline == k)
  }

  /** Whatever order the dictionary is written in, reading it back gives the same dictionary. */
  lemma DumpRoundTrip(records: seq<Record>, m: map<string, string>)
    requires IsDump(records, m)
    ensures Parsed(records) == m
  {
    forall k | k in m
      ensures k in Parsed(records) && Parsed(records)[k] == m[k]
    {
      var i :| 0 <= i < |records| && records[i].cmdline == k;
      assert records[i] == Record(k, m[k]);
      assert LastOf(records, k, m[k]);
      ParsedIsLast(records, k, m[k]);
    }
    forall k | k in Parsed(records)
      ensures k in m
    {
      ParsedIsLast(records, k, Parsed(records)[k]);
      assert LastOf(records, k, Parsed(records)[k]);
    }
  }

  /** A dump lists nothing but records of the history. */
  lemma DumpIsHistory(records: seq<Record>, history: seq<Record>)
    requires IsDump(records, Parsed(history))
    ensures forall r | r in records :: r in history
  {
    forall r | r in records
      ensures r in history
    {
      ParsedIsLast(history, r.cmdline, r.hash);
      assert LastOf(history, r.cmdline, r.hash);
    }
  }

  class TestCache {
    var lastSuccessfulRun: map<string, string>
    const useCacheResults: bool
    var lastSave: int
    var file: Option<seq<Record>>   // what the cache file holds, if it exists
    const world: World
    ghost var history: seq<Record>  // what was loaded, then every success reported since
    ghost var times: seq<int>       // when that was
    ghost var saved: nat            // how much of it the file knows

    ghost predicate Valid()
      reads this
    {
      && lastSuccessfulRun == Parsed(history)
      && saved <= |history| == |times|
      && (if file.None? then saved == 0
          else Parsed(file.value) == Parsed(history[..saved]) && forall r | r in file.value :: r in history)
      && (forall k | saved <= k < |times| :: times[k] - lastSave <= world.perSecond)
    }

    /** Creating the cache and loading the file that an earlier process may have left. */
    constructor (useCacheResults: bool, file: Option<seq<Record>>, world: World)
      modifies world`now
      ensures Valid() && this.useCacheResults == useCacheResults && this.file == file
      ensures this.world == world && old(world.now) <= lastSave <= world.now
      ensures history == if file.Some? then file.value else []
      ensures saved == |history|
    {
      lastSuccessfulRun := map[];
      this.useCacheResults, this.file, this.world := useCacheResults, file, world;
      history, times, saved := [], [], 0;
      var now := world.Time();
      lastSave := now;
      new;
      if file.Some? {
        Parse(file.value);
        saved := |history|;
        assert history[..saved] == history;
      }
    }

    /** Whoever reads the file, now or after the process has died, misses no success that was
        reported more than a second after the last save. */
    lemma FileIsRecent(k: nat)
      requires Valid() && k < |history| && times[k] > lastSave + world.perSecond
      requires forall j | k < j < |history| :: history[j].cmdline != history[k].cmdline
      ensures file.Some? && LastOf(file.value, history[k].cmdline, history[k].hash)
    {
      var id, hash := history[k].cmdline, history[k].hash;
      assert k < saved && history[..saved][k] == Record(id, hash);
      assert LastOf(history[..saved], id, hash);
      ParsedIsLast(history[..saved], id, hash);
      ParsedIsLast(file.value, id, hash);
    }

    /** A job may be skipped exactly when caching is on and the last success known of a job with
        its identity was with the same hash. */
    function ShouldRun(cmdline: string, binHash: string): (run: bool)
      reads this
      requires Valid()
      ensures !run <==> useCacheResults && LastOf(history, cmdline, binHash)
    {
      ParsedIsLast(history, cmdline, binHash);
      if cmdline !in lastSuccessfulRun then true
      else if lastSuccessfulRun[cmdline] != binHash then true
      else if !useCacheResults then true
      else false
    }

    /** Records a success; the file follows exactly when the last time was more than a second
        ago. */
    method Finished(cmdline: string, binHash: string)
      requires Valid()
      modifies this, world`now
      ensures Valid() && world.now >= old(world.now)
      ensures history == old(history) + [Record(cmdline, binHash)]
      ensures |times| == |old(times)| + 1 && times[..|old(times)|] == old(times)
      ensures lastSuccessfulRun == old(lastSuccessfulRun)[cmdline := binHash]
      ensures
        var t := times[|old(times)|];
        && old(world.now) <= t <= world.now
        && if t - old(lastSave) > world.perSecond
           then t <= lastSave <= world.now && file.Some? && IsDump(file.value, lastSuccessfulRun)
                && saved == |history|
           else lastSave == old(lastSave) && file == old(file) && saved == old(saved)
    {
      var t := world.Time();
      lastSuccessfulRun := lastSuccessfulRun[cmdline := binHash];
      history, times := history + [Record(cmdline, binHash)], times + [t];
      assert history[..|history| - 1] == old(history);
      assert history[..saved] == old(history)[..saved];
      if t - lastSave > world.perSecond {
        Save();
      }
    }

    method Save()
      requires lastSuccessfulRun == Parsed(history) && |times| == |history|
      modifies this`file, this`lastSave, this`saved, world`now
      ensures Valid() && file.Some? && IsDump(file.value, lastSuccessfulRun)
      ensures saved == |history| && old(world.now) <= lastSave <= world.now
    {
      var records := Dump();
      DumpIsHistory(records, history);
      DumpRoundTrip(records, lastSuccessfulRun);
      file := Some(records);
      saved := |history|;
      assert history[..saved] == history;
      var now := world.Time();
      lastSave := now;
    }

    /** The items in the order in which the dictionary happens to give them. */
    method Dump() returns (records: seq<Record>)
      ensures IsDump(records, lastSuccessfulRun)
    {
      records := [];
      var todo := lastSuccessfulRun.Keys;
      while todo != {}
        invariant todo <= lastSuccessfulRun.Keys
        invariant IsDump(records, Without(lastSuccessfulRun, todo))
      {
        ghost var before, rest := records, todo;
        var k :| k in todo;
        records := records + [Record(k, lastSuccessfulRun[k])];
        todo := todo - {k};
        assert rest == todo + {k};
        DumpGrows(before, lastSuccessfulRun, k, todo);
      }
      assert lastSuccessfulRun == Without(lastSuccessfulRun, todo);
    }

    /** Loading a dump replaces everything that was known. */
    method Parse(records: seq<Record>)
      modifies this`lastSuccessfulRun, this`history, this`times
      ensures history == records && lastSuccessfulRun == Parsed(records) && |times| == |records|
    {
      var parsed: map<string, string> := map[];
      for i := 0 to |records|
        invariant parsed == Parsed(records[..i])
      {
        assert records[..i + 1][..i] == records[..i];
        parsed := parsed[records[i].cmdline := records[i].hash];
      }
      assert records[..|records|] == records;
      lastSuccessfulRun := parsed;
      ghost var now := lastSave;
      history, times := records, seq(|records|, _ => now);
    }
  }

  ghost function Without(m: map<string, string>, keys: set<string>): map<string, string> {
    map k | k in m && k !in keys :: m[k]
  }

  lemma DumpGrows(records: seq<Record>, m: map<string, string>, k: string, todo: set<string>)
    requires k in m && k !in todo && IsDump(records, Without(m, todo + {k}))
    ensures IsDump(records + [Record(k, m[k])], Without(m, todo))
  {
    var longer := records + [Record(k, m[k])];
    forall i | i in Without(m, todo)
      ensures exists j :: 0 <= j < |longer| && longer[j].cmdline == i
    {
      if i == k {
        assert longer[|records|].cmdline == k;
      } else {
        assert i in Without(m, todo + {k});
        var j :| 0 <= j < |records| && records[j].cmdline == i;
        assert longer[j].cmdline == i;
      }
    }
  }
}
