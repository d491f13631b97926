/** The server that lends TCP ports to tests. Whether a port can be bound is up to the system; the
    log of what was lent, and when, is kept to state the ten-minute promise. */
module PortServers {
  import opened Worlds
  import opened Wrappers

  const FIRST := 10000
  const LIMIT := 65000
  const ENOUGH := 100
  const COOL_DOWN := 600  // seconds

  datatype Loan = Loan(port: int, time: int)

  /** No port is lent twice within the cool-down. */
  ghost predicate Spaced(log: seq<Loan>, coolDown: int) {
    forall i, j | 0 <= i < j < |log| && log[i].port == log[j].port ::
      log[j].time - log[i].time >= coolDown
  }

  ghost predicate Ascending(pool: seq<int>) {
    && (forall i | 0 <= i < |pool| :: FIRST <= pool[i] < LIMIT)
    && (forall i, j | 0 <= i < j < |pool| :: pool[i] < pool[j])
  }

  /** Every loan is either on record as in use, no later than recorded, or has cooled down. */
  ghost predicate Remembered(log: seq<Loan>, inUse: map<int, int>, now: int, coolDown: int) {
    forall k | 0 <= k < |log| ::
      now - log[k].time >= coolDown
      || (log[k].port in inUse && log[k].time <= inUse[log[k].port])
  }

  /** The pool holds exactly the ports below `stop` that are not in use and were not refused. */
  ghost predicate Scanned(pool: seq<int>, inUse: map<int, int>, refused: set<int>, stop: int) {
    forall p :: p in pool <==> FIRST <= p < stop && p !in inUse && p !in refused
  }

  /** The pool is what could be bound of the ports that were tried, and `refused` the others. */
  ghost predicate Tried(binds: seq<(int, bool)>, pool: seq<int>, refused: set<int>) {
    && (forall p :: p in pool <==> (p, true) in binds)
    && (forall p :: p in refused <==> (p, false) in binds)
  }

  lemma NothingTried(binds: seq<(int, bool)>)
    ensures Tried(binds[|binds|..], [], {})
  {
  }

  lemma OneMoreTried(
      before: seq<(int, bool)>, now: seq<(int, bool)>, n: nat, pool: seq<int>, refused: set<int>,
      p: int, free: bool)
    requires n <= |before| && now == before + [(p, free)] && Tried(before[n..], pool, refused)
    ensures if free then Tried(now[n..], pool + [p], refused) else Tried(now[n..], pool, refused + {p})
  {
    assert now[n..] == before[n..] + [(p, free)];
  }

  lemma ScanStarts(inUse: map<int, int>)
    ensures Scanned([], inUse, {}, FIRST)
  {
  }

  lemma ScanPasses(pool: seq<int>, inUse: map<int, int>, refused: set<int>, i: int)
    requires Scanned(pool, inUse, refused, i) && i in inUse
    ensures Scanned(pool, inUse, refused, i + 1)
  {
  }

  lemma ScanDrops(pool: seq<int>, inUse: map<int, int>, refused: set<int>, i: int)
    requires Scanned(pool, inUse, refused, i)
    ensures Scanned(pool, inUse - {i}, refused, i)
  {
  }

  lemma ScanTakes(pool: seq<int>, inUse: map<int, int>, refused: set<int>, i: int)
    requires Scanned(pool, inUse, refused, i) && Ascending(pool)
    requires FIRST <= i < LIMIT && i !in inUse && i !in refused
    ensures Scanned(pool + [i], inUse, refused, i + 1) && Ascending(pool + [i])
  {
    assert forall k | 0 <= k < |pool| :: pool[k] in pool;
  }

  lemma ScanRefuses(pool: seq<int>, inUse: map<int, int>, refused: set<int>, i: int)
    requires Scanned(pool, inUse, refused, i) && FIRST <= i
    ensures Scanned(pool, inUse, refused + {i}, i + 1)
  {
    assert i !in pool;
  }

  class PortServer {
    var pool: seq<int>
    var inUse: map<int, int>
    const world: World
    ghost var log: seq<Loan>

    // in ticks of the clock
    function CoolDown(): int {
      COOL_DOWN * world.perSecond
    }

    ghost predicate Valid()
      reads this, world
    {
      && Ascending(pool) && |pool| <= ENOUGH + 1
      && (forall p | p in pool :: p !in inUse)
      && (forall k | 0 <= k < |log| :: log[k].time <= world.now)
      && Remembered(log, inUse, world.now, CoolDown())
      && Spaced(log, CoolDown())
    }

    constructor (world: World)
      ensures Valid() && pool == [] && inUse == map[] && log == [] && this.world == world
    {
      pool, inUse, log := [], map[], [];
      this.world := world;
    }

    /** Scans upward for ports that are neither in use nor refused by the system. It is only called
        with an empty pool. `stop` is where the scan ended, `refused` what could not be bound. */
    method RefillPool() returns (ghost stop: int, ghost refused: set<int>)
      requires Valid() && pool == []
      modifies this`pool, this`inUse, world`now, world`binds
      ensures Valid() && world.now >= old(world.now)
      ensures old(world.binds) <= world.binds
      ensures Tried(world.binds[|old(world.binds)|..], pool, refused)
      ensures 10000 <= stop <= 65000 && (stop == 65000 || |pool| == 101)
      ensures Scanned(pool, inUse, refused, stop)
      ensures forall p | p in inUse :: p in old(inUse) && inUse[p] == old(inUse)[p]
      ensures forall p | p in old(inUse) && p !in inUse :: world.now - old(inUse)[p] >= CoolDown()
      ensures forall p | 10000 <= p < stop && p in inUse :: old(world.now) - inUse[p] < CoolDown()
    {
      hide Scanned, Tried, Remembered, Spaced;
      refused, stop := {}, FIRST;
      ghost var tried := |world.binds|;
      NothingTried(world.binds);
      ScanStarts(inUse);
      for i := FIRST to LIMIT
        invariant Valid() && stop == i && (forall p | p in refused :: p < i) && world.now >= old(world.now)
        invariant Scanned(pool, inUse, refused, i)
        invariant old(world.binds) <= world.binds && tried == |old(world.binds)|
        invariant Tried(world.binds[tried..], pool, refused)
        invariant forall p | p in inUse :: p in old(inUse) && inUse[p] == old(inUse)[p]
        invariant forall p | p in old(inUse) && p !in inUse :: world.now - old(inUse)[p] >= CoolDown()
        invariant forall p | FIRST <= p < i && p in inUse :: old(world.now) - inUse[p] < CoolDown()
      {
        if |pool| > ENOUGH {
          break;
        }
        stop := i + 1;
        if i in inUse {
          ghost var before := world.now;
          var now := world.Time();
          StillRemembered(log, inUse, before, now, CoolDown());
          if now - inUse[i] < CoolDown() {
            ScanPasses(pool, inUse, refused, i);
            continue;
          }
          Forget(log, inUse, world.now, CoolDown(), i);
          ScanDrops(pool, inUse, refused, i);
          inUse := inUse - {i};
        }
        ghost var before := world.binds;
        var free := world.BindPort(i);
        OneMoreTried(before, world.binds, tried, pool, refused, i, free);
        if free {
          ScanTakes(pool, inUse, refused, i);
          pool := pool + [i];
        } else {
          ScanRefuses(pool, inUse, refused, i);
          refused := refused + {i};
        }
      }
    }

    /** Lends the first port of the pool. Without any port the list access raises an exception. */
    method AllocatePort() returns (port: Option<int>)
      requires Valid()
      modifies this`pool, this`inUse, this`log, world`now, world`binds
      ensures Valid() && old(world.binds) <= world.binds
      ensures port.Some? ==>
        && 10000 <= port.value < 65000
        && log == old(log) + [Loan(port.value, world.now)]
        && port.value in inUse && inUse[port.value] == world.now
        && (old(pool) != [] ==> port.value == old(pool)[0] && pool == old(pool)[1..])
        && (old(pool) == [] ==>
              var tried := world.binds[|old(world.binds)|..];
              && (port.value, true) in tried && (forall p | (p, true) in tried :: port.value <= p)
              && forall p :: p in pool <==> (p, true) in tried && p != port.value)
      ensures port.None? ==>
        && old(pool) == [] && pool == [] && log == old(log)
        && forall p | 10000 <= p < 65000 ::
             || (p, false) in world.binds[|old(world.binds)|..]
             || (p in inUse && old(world.now) - inUse[p] < 600 * world.perSecond)
    {
      if pool == [] {
        var _, _ := RefillPool();
      }
      if pool == [] {
        return None;
      }
      port := Some(pool[0]);
      assert forall p | p in pool :: pool[0] <= p;
      LendFirst();
    }

    method LendFirst()
      requires Valid() && pool != []
      modifies this`pool, this`inUse, this`log, world`now
      ensures Valid() && pool == old(pool)[1..] && world.now >= old(world.now)
      ensures log == old(log) + [Loan(old(pool)[0], world.now)]
      ensures inUse == old(inUse)[old(pool)[0] := world.now]
    {
      var port := pool[0];
      pool := pool[1..];
      var now := world.Time();
      Lend(log, inUse, now, CoolDown(), port);
      inUse := inUse[port := now];
      log := log + [Loan(port, now)];
    }

    /** Any number of requests, one after the other. */
    method Serve(requests: nat) returns (answers: seq<Option<int>>)
      requires Valid()
      modifies this`pool, this`inUse, this`log, world
      ensures Valid() && |answers| == requests && old(log) <= log
      ensures Spaced(log, 600 * world.perSecond)
      ensures forall k | 0 <= k < |answers| && answers[k].Some? :: 10000 <= answers[k].value < 65000
      ensures PortsOf(log[|old(log)|..]) == Granted(answers)
    {
      answers := [];
      for i := 0 to requests
        invariant Valid() && |answers| == i && old(log) <= log
        invariant forall k | 0 <= k < |answers| && answers[k].Some? :: 10000 <= answers[k].value < 65000
        invariant PortsOf(log[|old(log)|..]) == Granted(answers)
      {
        ghost var before := log;
        var port := AllocatePort();
        assert (answers + [port])[..i] == answers;
        if port.Some? {
          LoanLogged(before, Loan(port.value, world.now), |old(log)|);
        }
        answers := answers + [port];
      }
    }
  }

  function PortsOf(log: seq<Loan>): seq<int> {
    seq(|log|, i requires 0 <= i < |log| => log[i].port)
  }

  /** The ports among the answers. */
  function Granted(answers: seq<Option<int>>): seq<int> {
    if answers == [] then []
    else
      var last := answers[|answers| - 1];
      Granted(answers[..|answers| - 1]) + if last.Some? then [last.value] else []
  }

  lemma LoanLogged(log: seq<Loan>, loan: Loan, n: nat)
    requires n <= |log|
    ensures PortsOf((log + [loan])[n..]) == PortsOf(log[n..]) + [loan.port]
  {
    assert (log + [loan])[n..] == log[n..] + [loan];
  }

  lemma Forget(log: seq<Loan>, inUse: map<int, int>, now: int, coolDown: int, p: int)
    requires Remembered(log, inUse, now, coolDown) && p in inUse && now - inUse[p] >= coolDown
    ensures Remembered(log, inUse - {p}, now, coolDown)
  {
  }

  lemma StillRemembered(log: seq<Loan>, inUse: map<int, int>, now: int, later: int, coolDown: int)
    requires Remembered(log, inUse, now, coolDown) && now <= later
    ensures Remembered(log, inUse, later, coolDown)
  {
  }

  /** A port that is not on record as in use can be lent: its last loan has cooled down. */
  lemma Lend(log: seq<Loan>, inUse: map<int, int>, now: int, coolDown: int, p: int)
    requires Remembered(log, inUse, now, coolDown) && Spaced(log, coolDown) && p !in inUse
    requires forall k | 0 <= k < |log| :: log[k].time <= now
    ensures Remembered(log + [Loan(p, now)], inUse[p := now], now, coolDown)
    ensures Spaced(log + [Loan(p, now)], coolDown)
  {
  }
}
