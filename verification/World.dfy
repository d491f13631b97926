/** What the Python tools ask of the system they run on: the time, how a process has ended, whether
    somebody wants to cancel, what a file contains and whether a port can be bound. The answers are up
    to the environment, but for the clock, which never goes back. The questions that were asked and
    their answers are kept, to tell what was made of them. */
module Worlds {
  import opened Wrappers

  type Pos = n: nat | n > 0 witness 1

  class World {
    var now: int            // in ticks, any number to the second
    const perSecond: Pos
    ghost var pauses: nat
    ghost var polls: seq<(object, Option<int>)>
    ghost var asks: seq<bool>
    ghost var files: seq<(string, string)>
    ghost var binds: seq<(int, bool)>

    constructor (now: int, perSecond: Pos)
      ensures this.now == now && this.perSecond == perSecond && pauses == 0
      ensures polls == [] && asks == [] && files == [] && binds == []
    {
      this.now, this.perSecond := now, perSecond;
      pauses, polls, asks, files, binds := 0, [], [], [], [];
    }

    method Time() returns (t: int)
      modifies this`now
      ensures t == now >= old(now)
    {
      var passed: nat :| true;
      now := now + passed;
      t := now;
    }

    /** Sleeping, or pausing until a signal comes: some time passes. */
    method Pause()
      modifies this`now, this`pauses
      ensures now > old(now) && pauses == old(pauses) + 1
    {
      var passed: nat :| true;
      now := now + passed + 1;
      pauses := pauses + 1;
    }

    /** The exit code of a process, once it has ended. */
    method PollProcess(process: object) returns (exit: Option<int>)
      modifies this`polls
      ensures polls == old(polls) + [(process, exit)]
    {
      exit := *;
      polls := polls + [(process, exit)];
    }

    method AskToCancel() returns (yes: bool)
      modifies this`asks
      ensures asks == old(asks) + [yes]
    {
      yes := *;
      asks := asks + [yes];
    }

    method ReadFile(name: string) returns (content: string)
      modifies this`files
      ensures files == old(files) + [(name, content)]
    {
      content := *;
      files := files + [(name, content)];
    }

    method BindPort(port: int) returns (free: bool)
      modifies this`binds
      ensures binds == old(binds) + [(port, free)]
    {
      free := *;
      binds := binds + [(port, free)];
    }
  }
}
