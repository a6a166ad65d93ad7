/**
 * The shared counter command by command: a call reads its clock, then its INCR and its EXPIRE
 * reach the server at instants of their own, interleaved with those of every other call.
 */
module RedisSteps {
  import opened Wrappers
  import opened Counting
  import opened RateLimiter
  import opened SharedRateLimiter

  /** A command of a call that read its clock at `readAt`, executed at `at`. */
  datatype Command =
    | IncrCommand(key: string, limit: int, window: int, readAt: real, at: real)
    | ExpireCommand(key: string, limit: int, window: int, readAt: real, at: real)

  /** The counters, and the increments whose count stayed within the limit, in server order. */
  datatype Server = Server(counters: Counters, admitted: seq<Command>)

  function Execute(s: Server, c: Command): Server
    requires c.window != 0
  {
    var k := WindowKey(c.key, c.window, c.readAt);
    match c
    case IncrCommand(_, _, _, _, _) =>
      var counters := Incr(s.counters, k, c.at);
      Server(counters, if counters[k].count <= c.limit then s.admitted + [c] else s.admitted)
    case ExpireCommand(_, _, _, _, _) =>
      Server(Expire(s.counters, k, c.at, c.window + 1), s.admitted)
  }

  predicate NoZeroWindow(commands: seq<Command>) {
    forall i :: 0 <= i < |commands| ==> commands[i].window != 0
  }

  function RunCommands(commands: seq<Command>): Server
    requires NoZeroWindow(commands)
  {
    if commands == [] then Server(map[], [])
    else Execute(RunCommands(commands[..|commands| - 1]), commands[|commands| - 1])
  }

  /**
   * One limit and window for the key, clock readings after 1970, commands after their readings, and
   * increments at most `delay` after theirs. Expiries may be as late as they like, and more than needed.
   */
  predicate Prompt(commands: seq<Command>, key: string, limit: int, window: int, delay: real) {
    forall i :: 0 <= i < |commands| && commands[i].key == key ==>
      var c := commands[i];
      && c.limit == limit && c.window == window
      && 0.0 <= c.readAt <= c.at && (c.IncrCommand? ==> c.at <= c.readAt + delay)
  }

  predicate AdmittedIn(c: Command, key: string, window: int, w: int)
    requires window > 0
  {
    c.key == key && WindowKey(key, window, c.readAt) == (key, w)
  }

  function CountIn(admitted: seq<Command>, key: string, window: int, w: int): nat
    requires window > 0
  {
    Count(admitted, (c: Command) => AdmittedIn(c, key, window, w))
  }

  /** The counter of a window lives a second beyond it, and has counted every admission. */
  predicate Covers(s: Server, key: string, limit: int, window: int, w: int)
    requires window > 0
  {
    var n := CountIn(s.admitted, key, window, w);
    && ((key, w) in s.counters ==>
          && s.counters[(key, w)].count >= 1
          && (s.counters[(key, w)].expiresAt.Some? ==>
                s.counters[(key, w)].expiresAt.value >= WindowEnd(window, w) + 1.0))
    && n <= CountOf(s.counters, (key, w))
    && n <= if limit > 0 then limit else 0
  }

  lemma CommandKeepsCover(s: Server, c: Command, key: string, limit: int, window: int, w: int)
    requires window > 0 && c.window != 0 && Covers(s, key, limit, window, w)
    requires c.key == key ==>
               && c.limit == limit && c.window == window
               && 0.0 <= c.readAt <= c.at && (c.IncrCommand? ==> c.at <= c.readAt + 1.0)
    ensures Covers(Execute(s, c), key, limit, window, w)
  {
    CountAppend(s.admitted, c, (d: Command) => AdmittedIn(d, key, window, w));
    if c.key == key {
      WindowContains(window, c.readAt);
    }
  }

  lemma {:induction false} PromptRunCovers(commands: seq<Command>, key: string, limit: int, window: int, w: int)
    requires window > 0 && NoZeroWindow(commands) && Prompt(commands, key, limit, window, 1.0)
    ensures Covers(RunCommands(commands), key, limit, window, w)
    decreases |commands|
  {
    if commands != [] {
      PromptRunCovers(commands[..|commands| - 1], key, limit, window, w);
      CommandKeepsCover(
        RunCommands(commands[..|commands| - 1]), commands[|commands| - 1], key, limit, window, w);
    }
  }

  lemma {:induction false} AdmittedArePrompt(commands: seq<Command>, key: string, limit: int, window: int)
    requires NoZeroWindow(commands) && Prompt(commands, key, limit, window, 1.0)
    ensures forall i :: 0 <= i < |RunCommands(commands).admitted| && RunCommands(commands).admitted[i].key == key ==>
              RunCommands(commands).admitted[i].readAt >= 0.0
    decreases |commands|
  {
    if commands != [] {
      AdmittedArePrompt(commands[..|commands| - 1], key, limit, window);
    }
  }

  predicate ReadWithin(c: Command, key: string, from: real, upTo: real) {
    c.key == key && Within(c.readAt, from, upTo)
  }

  /**
   * While every INCR reaches the server within a second of its call's clock reading, any interval of
   * window length holds at most twice the limit of admitted readings, however commands interleave.
   */
  lemma PromptCallsAdmitAtMostTwiceTheLimit(commands: seq<Command>, key: string, limit: int, window: int, from: real)
    requires window > 0 && NoZeroWindow(commands) && Prompt(commands, key, limit, window, 1.0)
    ensures Count(RunCommands(commands).admitted, (c: Command) => ReadWithin(c, key, from, from + window as real))
            <= 2 * if limit > 0 then limit else 0
  {
    var admitted := RunCommands(commands).admitted;
    var here := (c: Command) => ReadWithin(c, key, from, from + window as real);
    var v := from.Floor / window;
    AdmittedArePrompt(commands, key, limit, window);
    PromptRunCovers(commands, key, limit, window, v);
    PromptRunCovers(commands, key, limit, window, v + 1);
    forall i | 0 <= i < |admitted| && here(admitted[i])
      ensures AdmittedIn(admitted[i], key, window, v) || AdmittedIn(admitted[i], key, window, v + 1)
    {
      TwoWindows(window, from, admitted[i].readAt);
    }
    CountCovered(admitted, here, (c: Command) => AdmittedIn(c, key, window, v), (c: Command) => AdmittedIn(c, key, window, v + 1));
  }

  lemma CommandsAppend(commands: seq<Command>, c: Command)
    requires NoZeroWindow(commands + [c])
    ensures NoZeroWindow(commands) && c.window != 0
    ensures RunCommands(commands + [c]) == Execute(RunCommands(commands), c)
  {
    var all := commands + [c];
    assert all[|commands|] == c && all[..|commands|] == commands;
    assert forall i :: 0 <= i < |commands| ==> commands[i] == all[i];
  }

  /** An increment and its expiry at time zero, and another increment two seconds later for the same window. */
  lemma ExpiredCounterRestarts(key: string, readAt: real)
    requires 0.0 <= readAt < 1.0
    ensures var (first, expiry, late) :=
              (IncrCommand(key, 1, 1, 0.0, 0.0), ExpireCommand(key, 1, 1, 0.0, 0.0), IncrCommand(key, 1, 1, readAt, 2.0));
            Execute(Execute(Execute(Server(map[], []), first), expiry), late).admitted == [first, late]
  {
    var (first, expiry, late) :=
      (IncrCommand(key, 1, 1, 0.0, 0.0), ExpireCommand(key, 1, 1, 0.0, 0.0), IncrCommand(key, 1, 1, readAt, 2.0));
    var k := (key, 0);
    assert WindowKey(key, 1, 0.0) == k && WindowKey(key, 1, readAt) == k;
    assert Execute(Server(map[], []), first) == Server(map[k := Counter(1, None)], [first]);
    assert Execute(Server(map[k := Counter(1, None)], [first]), expiry) == Server(map[k := Counter(1, Some(2.0))], [first]);
    assert Execute(Server(map[k := Counter(1, Some(2.0))], [first]), late).admitted == [first] + [late];
  }

  /** A reading in the first second that a command two seconds in can still be late for. */
  function LateReading(delay: real): real {
    if delay <= 2.0 then 2.0 - delay else 0.0
  }

  /** The second is tight: any longer delay lets a window of one second admit two calls under limit 1. */
  lemma LateIncrementOverruns(key: string, delay: real)
    requires delay > 1.0
    ensures var commands := [IncrCommand(key, 1, 1, 0.0, 0.0), ExpireCommand(key, 1, 1, 0.0, 0.0),
                             IncrCommand(key, 1, 1, LateReading(delay), 2.0)];
            && NoZeroWindow(commands) && Prompt(commands, key, 1, 1, delay)
            && CountIn(RunCommands(commands).admitted, key, 1, 0) == 2
  {
    var first, expiry, late :=
      IncrCommand(key, 1, 1, 0.0, 0.0), ExpireCommand(key, 1, 1, 0.0, 0.0), IncrCommand(key, 1, 1, LateReading(delay), 2.0);
    assert [] + [first] == [first] && [first] + [expiry] == [first, expiry];
    assert [first, expiry] + [late] == [first, expiry, late];
    CommandsAppend([first, expiry], late);
    CommandsAppend([first], expiry);
    CommandsAppend([], first);
    ExpiredCounterRestarts(key, LateReading(delay));
    var here := (c: Command) => AdmittedIn(c, key, 1, 0);
    assert here(first) && here(late);
    CountAppend([first], late, here);
    CountAppend([], first, here);
    assert [first] + [late] == [first, late];
  }
}
