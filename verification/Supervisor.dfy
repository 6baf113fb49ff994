/** The service supervisor as init drives it: services are started, polled, restarted within a
    limit, and stopped.  What `fork` and `waitpid` answer is a parameter. */
module Supervisor {

  const MAX_SERVICES := 32
  const ON_FAILURE := "on-failure"

  datatype State = Stopped | Starting | Running | Failed

  datatype Service = Service(name: string, executable: string, policy: string, maxRestarts: int)

  datatype Runtime = Runtime(config: Service, state: State, restartCount: int, pid: int)

  // What `fork` answers in the parent: a negative number, or the child's id.
  type Fork = pid: int | pid != 0 witness 1

  // A turn of the supervision loop as one service meets it.
  datatype Turn = Turn(wait: int, fork: Fork)

  // A turn of the supervision loop: the answers for the service at each place.
  datatype Round = Round(waits: nat -> int, forks: nat -> Fork)

  // ---------- one service ----------

  function Fresh(config: Service): Runtime {
    Runtime(config, Stopped, 0, -1)
  }

  function StartOne(s: Runtime, fork: Fork): Runtime {
    if s.state == Running then s
    else if fork < 0 then s.(state := Failed)
    else s.(state := Running, pid := fork)
  }

  function PollOne(s: Runtime, wait: int): Runtime {
    if s.pid <= 0 || s.state != Running || wait == 0 then s else s.(state := Failed, pid := -1)
  }

  function RestartOne(s: Runtime, fork: Fork): Runtime {
    if s.restartCount >= s.config.maxRestarts then s.(state := Failed)
    else StartOne(s.(restartCount := s.restartCount + 1, state := Stopped), fork)
  }

  function HandleOne(s: Runtime, fork: Fork): Runtime {
    if s.state != Failed || s.config.policy != ON_FAILURE then s
    else if s.restartCount >= s.config.maxRestarts then s.(config := s.config.(policy := "none"))
    else RestartOne(s, fork)
  }

  function StopOne(s: Runtime): Runtime {
    s.(state := Stopped, pid := -1)
  }

  function ShutOne(s: Runtime): Runtime {
    if s.pid > 0 then StopOne(s) else s
  }

  function TurnOne(s: Runtime, t: Turn): Runtime {
    HandleOne(PollOne(s, t.wait), t.fork)
  }

  function After(s: Runtime, turns: seq<Turn>): Runtime {
    if turns == [] then s
    else TurnOne(After(s, turns[..|turns| - 1]), turns[|turns| - 1])
  }

  function TurnsOf(rounds: seq<Round>, i: nat): (turns: seq<Turn>)
    ensures |turns| == |rounds|
  {
    if rounds == [] then []
    else
      var last := rounds[|rounds| - 1];
      TurnsOf(rounds[..|rounds| - 1], i) + [Turn(last.waits(i), last.forks(i))]
  }

  // ---------- what every run keeps ----------

  ghost predicate RuntimeOk(s: Runtime) {
    && (s.state == Running <==> s.pid > 0) && s.state != Starting
    && 0 <= s.restartCount <= s.config.maxRestarts
  }

  // The configuration a service was registered with, but for a policy withdrawn.
  ghost predicate SameConfig(now: Service, was: Service) {
    now == was || (was.policy == ON_FAILURE && now == was.(policy := "none"))
  }

  lemma TurnKeeps(s: Runtime, t: Turn)
    requires RuntimeOk(s)
    ensures RuntimeOk(TurnOne(s, t)) && SameConfig(TurnOne(s, t).config, s.config)
    ensures s.restartCount <= TurnOne(s, t).restartCount <= s.restartCount + 1
  {
  }

  // In every run a service is RUNNING exactly while it has a process, and is restarted no more often
  // than its limit allows.
  lemma {:induction false} AfterKeeps(s: Runtime, turns: seq<Turn>)
    requires RuntimeOk(s)
    ensures RuntimeOk(After(s, turns)) && SameConfig(After(s, turns).config, s.config)
    ensures s.restartCount <= After(s, turns).restartCount <= s.restartCount + |turns|
  {
    if turns != [] {
      var front := turns[..|turns| - 1];
      AfterKeeps(s, front);
      TurnKeeps(After(s, front), turns[|turns| - 1]);
    }
  }

  lemma LaunchedOk(config: Service, fork: Fork)
    requires config.maxRestarts >= 0
    ensures RuntimeOk(StartOne(Fresh(config), fork))
  {
  }

  // A service that is not RUNNING and whose policy is not "on-failure" is never started again.
  lemma {:induction false} StaysDown(s: Runtime, turns: seq<Turn>)
    requires RuntimeOk(s) && s.state != Running && s.config.policy != ON_FAILURE
    ensures After(s, turns) == s
  {
    if turns != [] {
      StaysDown(s, turns[..|turns| - 1]);
    }
  }

  // Under any other policy no service is ever started a second time.
  lemma {:induction false} OtherPolicyNeverRestarts(s: Runtime, turns: seq<Turn>)
    requires RuntimeOk(s) && s.config.policy != ON_FAILURE
    ensures After(s, turns).restartCount == s.restartCount && After(s, turns).config == s.config
    ensures After(s, turns).state == Running <==> s.state == Running && forall t :: t in turns ==> t.wait == 0
  {
    if turns != [] {
      var front, last := turns[..|turns| - 1], turns[|turns| - 1];
      OtherPolicyNeverRestarts(s, front);
      AfterKeeps(s, front);
      assert turns == front + [last];
      assert forall t :: t in turns <==> t in front || t == last;
    }
  }

  // ---------- the retirement of a service that keeps exiting ----------

  ghost predicate Retired(s: Runtime) {
    s.state == Failed && s.config.policy == "none" && s.pid <= 0
  }

  // How many more turns a service may spend on failures.
  function Patience(s: Runtime): int {
    if s.config.policy == ON_FAILURE then s.config.maxRestarts - s.restartCount + 1 else 0
  }

  // Its process has exited, or it has none, by the time of the turn.
  ghost predicate Down(s: Runtime, t: Turn) {
    s.state == Failed || (s.state == Running && t.wait != 0)
  }

  // A turn that finds an "on-failure" service down costs it exactly one unit of patience, however
  // the new process fares, and any other turn costs nothing.
  lemma PatienceFalls(s: Runtime, t: Turn)
    requires RuntimeOk(s)
    ensures Patience(s) >= 0
    ensures Patience(TurnOne(s, t)) ==
            if Down(s, t) && s.config.policy == ON_FAILURE then Patience(s) - 1 else Patience(s)
    ensures s.config.policy == ON_FAILURE && Patience(TurnOne(s, t)) == 0 ==> Retired(TurnOne(s, t))
    ensures s.state != Stopped ==> TurnOne(s, t).state != Stopped
  {
  }

  ghost predicate AlwaysExits(turns: seq<Turn>) {
    forall k :: 0 <= k < |turns| ==> turns[k].wait != 0
  }

  lemma {:induction false} PatienceAfter(s: Runtime, turns: seq<Turn>)
    requires RuntimeOk(s) && s.config.policy == ON_FAILURE && s.state != Stopped && AlwaysExits(turns)
    ensures |turns| < Patience(s) ==>
              After(s, turns).config == s.config && Patience(After(s, turns)) == Patience(s) - |turns|
    ensures |turns| >= Patience(s) ==>
              Retired(After(s, turns)) && After(s, turns).restartCount == s.config.maxRestarts
    ensures After(s, turns).state != Stopped
  {
    if turns != [] {
      var front, last := turns[..|turns| - 1], turns[|turns| - 1];
      assert AlwaysExits(front) && last.wait != 0 by {
        assert forall k :: 0 <= k < |front| ==> front[k] == turns[k];
      }
      PatienceAfter(s, front);
      AfterKeeps(s, front);
      LastTurn(s, After(s, front), |front|, last);
    }
  }

  lemma LastTurn(s: Runtime, mid: Runtime, n: nat, last: Turn)
    requires RuntimeOk(s) && s.config.policy == ON_FAILURE
    requires RuntimeOk(mid) && mid.state != Stopped && last.wait != 0 && SameConfig(mid.config, s.config)
    requires n < Patience(s) ==> mid.config == s.config && Patience(mid) == Patience(s) - n
    requires n >= Patience(s) ==> Retired(mid) && mid.restartCount == s.config.maxRestarts
    ensures var e := TurnOne(mid, last);
      && (n + 1 < Patience(s) ==> e.config == s.config && Patience(e) == Patience(s) - (n + 1))
      && (n + 1 >= Patience(s) ==> Retired(e) && e.restartCount == s.config.maxRestarts)
      && e.state != Stopped
  {
    PatienceFalls(mid, last);
  }

  // An "on-failure" service whose process always exits is retired once it has been restarted
  // `maxRestarts` times, at its next failure and not before, and stays retired.
  lemma RetiredExactly(config: Service, fork: Fork, turns: seq<Turn>)
    requires config.policy == ON_FAILURE && config.maxRestarts >= 0 && AlwaysExits(turns)
    ensures Retired(After(StartOne(Fresh(config), fork), turns)) <==> |turns| > config.maxRestarts
    ensures After(StartOne(Fresh(config), fork), turns).restartCount
         == if |turns| < config.maxRestarts then |turns| else config.maxRestarts
  {
    LaunchedOk(config, fork);
    PatienceAfter(StartOne(Fresh(config), fork), turns);
  }

  // ---------- written out ----------

  // The outcome of a fork for a service: its configuration, restarts, and the id it had.
  ghost predicate Forked(t: Runtime, config: Service, restarts: int, pid: int, fork: Fork) {
    t == if fork > 0 then Runtime(config, Running, restarts, fork) else Runtime(config, Failed, restarts, pid)
  }

  ghost predicate Started(s: Runtime, t: Runtime, fork: Fork) {
    if s.state == Running then t == s else Forked(t, s.config, s.restartCount, s.pid, fork)
  }

  ghost predicate Polled(s: Runtime, t: Runtime, wait: int) {
    t == if s.pid > 0 && s.state == Running && wait != 0 then Runtime(s.config, Failed, s.restartCount, -1) else s
  }

  ghost predicate Restarted(s: Runtime, t: Runtime, fork: Fork) {
    if s.restartCount >= s.config.maxRestarts then t == Runtime(s.config, Failed, s.restartCount, s.pid)
    else Forked(t, s.config, s.restartCount + 1, s.pid, fork)
  }

  ghost predicate Handled(s: Runtime, t: Runtime, fork: Fork) {
    if s.state != Failed || s.config.policy != "on-failure" then t == s
    else if s.restartCount >= s.config.maxRestarts then
      t == Runtime(Service(s.config.name, s.config.executable, "none", s.config.maxRestarts), Failed, s.restartCount,
                   s.pid)
    else Forked(t, s.config, s.restartCount + 1, s.pid, fork)
  }

  // One turn of the supervision loop: a service is polled first and, if it is down by then, handled at once.
  lemma TurnExactly(s: Runtime, t: Turn)
    ensures exists mid :: Polled(s, mid, t.wait) && Handled(mid, TurnOne(s, t), t.fork)
  {
    assert Polled(s, PollOne(s, t.wait), t.wait);
  }

  // A run is its turns one after another.
  lemma AfterExactly(s: Runtime, turns: seq<Turn>, t: Turn)
    ensures After(s, []) == s
    ensures exists mid :: Polled(After(s, turns), mid, t.wait) && Handled(mid, After(s, turns + [t]), t.fork)
  {
    TurnExactly(After(s, turns), t);
    assert (turns + [t])[..|turns|] == turns;
  }

  // ---------- the supervisor ----------

  class Supervisor {
    const services: array<Runtime>
    var count: nat
    // How often each service was forked.
    ghost var forkCalls: seq<nat>

    ghost predicate Valid()
      reads this
    {
      services.Length == MAX_SERVICES && count <= MAX_SERVICES && |forkCalls| == count
    }

    constructor (registry: seq<Service>)
      requires |registry| <= MAX_SERVICES
      ensures Valid() && count == |registry| && fresh(services)
      ensures forall i :: 0 <= i < count ==> services[i] == Fresh(registry[i]) && forkCalls[i] == 0
      ensures forall i :: 0 <= i < count ==> services[i] == Runtime(registry[i], Stopped, 0, -1)
    {
      services := new Runtime[MAX_SERVICES](i => Runtime(Service("", "", "", 0), Stopped, 0, 0));
      count := |registry|;
      forkCalls := seq(|registry|, i => 0);
      new;
      for i := 0 to count
        invariant count == |registry| && |forkCalls| == count
        invariant forall k :: 0 <= k < count ==> forkCalls[k] == 0
        invariant forall k :: 0 <= k < i ==> services[k] == Fresh(registry[k])
      {
        services[i] := Runtime(registry[i], Stopped, 0, -1);
      }
    }

    method Start(index: int, fork: Fork) returns (rc: int)
      requires Valid()
      modifies services, this`forkCalls
      ensures Valid()
      ensures !(0 <= index < count) ==>
                rc == -1 && services[..] == old(services[..]) && forkCalls == old(forkCalls)
      ensures 0 <= index < count ==>
        && services[..] == old(services[..])[index := StartOne(old(services[index]), fork)]
        && Started(old(services[index]), services[index], fork)
        && forkCalls == old(forkCalls)[index := old(forkCalls[index])
                                       + if old(services[index]).state == Running then 0 else 1]
        && rc == if services[index].state == Running then 0 else -1
    {
      if index < 0 || index >= count {
        return -1;
      }
      if services[index].state == Running {
        return 0;
      }
      services[index] := services[index].(state := Starting);
      forkCalls := forkCalls[index := forkCalls[index] + 1];
      if fork < 0 {
        services[index] := services[index].(state := Failed);
        return -1;
      }
      services[index] := services[index].(pid := fork);
      services[index] := services[index].(state := Running);
      return 0;
    }

    method Poll(round: Round) returns (rc: int)
      requires Valid()
      modifies services
      ensures rc == 0
      ensures forall k :: 0 <= k < count ==> services[k] == PollOne(old(services[k]), round.waits(k))
      ensures forall k :: 0 <= k < count ==> Polled(old(services[k]), services[k], round.waits(k))
    {
      for i := 0 to count
        invariant forall k :: 0 <= k < i ==> services[k] == PollOne(old(services[k]), round.waits(k))
        invariant forall k :: i <= k < count ==> services[k] == old(services[k])
      {
        if services[i].pid <= 0 {
          continue;
        }
        if services[i].state != Running {
          continue;
        }
        var result := round.waits(i);
        if result == 0 {
          continue;
        }
        if result < 0 {
          services[i] := services[i].(state := Failed, pid := -1);
          continue;
        }
        services[i] := services[i].(pid := -1);
        services[i] := services[i].(state := Failed);
      }
      return 0;
    }

    method Stop(index: int) returns (rc: int)
      requires Valid()
      modifies services
      ensures !(0 <= index < count) ==> rc == -1 && services[..] == old(services[..])
      ensures 0 <= index < count ==>
                rc == 0 && services[..] == old(services[..])[index := StopOne(old(services[index]))]
      ensures 0 <= index < count ==>
                services[index] == Runtime(old(services[index]).config, Stopped, old(services[index]).restartCount, -1)
    {
      if index < 0 || index >= count {
        return -1;
      }
      services[index] := services[index].(pid := -1);
      services[index] := services[index].(state := Stopped);
      return 0;
    }

    method Restart(index: int, fork: Fork) returns (rc: int)
      requires Valid()
      modifies services, this`forkCalls
      ensures Valid()
      ensures !(0 <= index < count) ==>
                rc == -1 && services[..] == old(services[..]) && forkCalls == old(forkCalls)
      ensures 0 <= index < count ==>
        && services[..] == old(services[..])[index := RestartOne(old(services[index]), fork)]
        && Restarted(old(services[index]), services[index], fork)
        && forkCalls == old(forkCalls)[index := old(forkCalls[index])
                                       + services[index].restartCount - old(services[index]).restartCount]
        && rc == if services[index].state == Running then 0 else -1
    {
      if index < 0 || index >= count {
        return -1;
      }
      if services[index].restartCount >= services[index].config.maxRestarts {
        services[index] := services[index].(state := Failed);
        return -1;
      }
      services[index] := services[index].(restartCount := services[index].restartCount + 1);
      services[index] := services[index].(state := Stopped);
      rc := Start(index, fork);
    }

    method HandleFailures(round: Round) returns (rc: int)
      requires Valid()
      modifies services, this`forkCalls
      ensures Valid() && rc == 0
      ensures forall k :: 0 <= k < count ==> services[k] == HandleOne(old(services[k]), round.forks(k))
      ensures forall k :: 0 <= k < count ==> Handled(old(services[k]), services[k], round.forks(k))
      ensures forall k :: 0 <= k < count ==>
                forkCalls[k] + old(services[k]).restartCount == old(forkCalls[k]) + services[k].restartCount
    {
      for i := 0 to count
        invariant Valid()
        invariant forall k :: 0 <= k < i ==> services[k] == HandleOne(old(services[k]), round.forks(k))
        invariant forall k :: 0 <= k < count ==>
                    forkCalls[k] + old(services[k]).restartCount == old(forkCalls[k]) + services[k].restartCount
        invariant forall k :: i <= k < count ==> services[k] == old(services[k])
      {
        if services[i].state != Failed {
          continue;
        }
        if services[i].config.policy != ON_FAILURE {
          continue;
        }
        if services[i].restartCount >= services[i].config.maxRestarts {
          services[i] := services[i].(config := services[i].config.(policy := "none"));
          continue;
        }
        var ok := Restart(i, round.forks(i));
      }
      return 0;
    }

    // The start loop, which ends at the first service that cannot be started.
    method StartAll(launch: Round) returns (ok: bool)
      requires Valid() && forall k :: 0 <= k < count ==> services[k].state == Stopped && forkCalls[k] == 0
      modifies services, this`forkCalls
      ensures Valid() && (ok <==> forall k :: 0 <= k < count ==> launch.forks(k) > 0)
      ensures ok ==> forall k :: 0 <= k < count ==>
                services[k] == StartOne(old(services[k]), launch.forks(k)) && forkCalls[k] == 1
      ensures ok ==> forall k :: 0 <= k < count ==>
                services[k] == old(services[k]).(state := Running, pid := launch.forks(k))
      ensures !ok ==> exists f: nat :: StoppedShort(old(services[..]), services[..], count, launch, f)
    {
      for i := 0 to count
        invariant Valid()
        invariant forall k :: 0 <= k < i ==> launch.forks(k) > 0
        invariant forall k :: 0 <= k < i ==>
                    services[k] == StartOne(old(services[k]), launch.forks(k)) && forkCalls[k] == 1
        invariant forall k :: i <= k < count ==> services[k] == old(services[k]) && forkCalls[k] == 0
      {
        var rc := Start(i, launch.forks(i));
        if rc < 0 {
          assert StoppedShort(old(services[..]), services[..], count, launch, i);
          return false;
        }
      }
      return true;
    }

    method StopAll()
      requires Valid()
      modifies services
      ensures forall k :: 0 <= k < count ==> services[k] == ShutOne(old(services[k]))
      ensures forall k :: 0 <= k < count ==>
                services[k] == if old(services[k]).pid > 0
                               then Runtime(old(services[k]).config, Stopped, old(services[k]).restartCount, -1)
                               else old(services[k])
    {
      for i := 0 to count
        invariant forall k :: 0 <= k < i ==> services[k] == ShutOne(old(services[k]))
        invariant forall k :: i <= k < count ==> services[k] == old(services[k])
      {
        if services[i].pid > 0 {
          var rc := Stop(i);
        }
      }
    }

    // The body of the supervision loop.
    method SuperviseOnce(round: Round) returns (rc: int)
      requires Valid()
      modifies services, this`forkCalls
      ensures Valid() && rc == 0
      ensures forall k :: 0 <= k < count ==>
                services[k] == TurnOne(old(services[k]), Turn(round.waits(k), round.forks(k)))
      ensures forall k :: 0 <= k < count ==>
                forkCalls[k] + old(services[k]).restartCount == old(forkCalls[k]) + services[k].restartCount
    {
      rc := Poll(round);
      if rc >= 0 {
        ghost var polled := services[..];
        assert forall k :: 0 <= k < count ==> polled[k].restartCount == old(services[k]).restartCount;
        rc := HandleFailures(round);
      }
    }

    // The supervision loop, for as many turns as there are before shutdown is requested.
    method Supervise(rounds: seq<Round>)
      requires Valid()
      modifies services, this`forkCalls
      ensures Valid()
      ensures forall k :: 0 <= k < count ==> services[k] == After(old(services[k]), TurnsOf(rounds, k))
      ensures forall k :: 0 <= k < count ==>
                forkCalls[k] + old(services[k]).restartCount == old(forkCalls[k]) + services[k].restartCount
    {
      ghost var was := services[..];
      var turn := 0;
      while turn < |rounds|
        invariant Valid() && turn <= |rounds| && |was| == MAX_SERVICES
        invariant Led(was, services[..], rounds[..turn], count)
        invariant forall k :: 0 <= k < count ==>
                    forkCalls[k] + was[k].restartCount == old(forkCalls[k]) + services[k].restartCount
      {
        ghost var before := services[..];
        var rc := SuperviseOnce(rounds[turn]);
        if rc < 0 {
          break;
        }
        LedOneTurn(was, before, services[..], rounds, turn, count);
        turn := turn + 1;
      }
      assert rounds[..turn] == rounds;
    }
  }

  // Each of the first `n` services is where its own turns lead it.
  ghost predicate Led(was: seq<Runtime>, now: seq<Runtime>, rounds: seq<Round>, n: nat) {
    n <= |was| && n <= |now| && forall k :: 0 <= k < n ==> now[k] == After(was[k], TurnsOf(rounds, k))
  }

  lemma LedOneTurn(was: seq<Runtime>, before: seq<Runtime>, now: seq<Runtime>, rounds: seq<Round>, turn: nat, n: nat)
    requires turn < |rounds| && Led(was, before, rounds[..turn], n) && n <= |now|
    requires forall k :: 0 <= k < n ==>
               now[k] == TurnOne(before[k], Turn(rounds[turn].waits(k), rounds[turn].forks(k)))
    ensures Led(was, now, rounds[..turn + 1], n)
  {
    forall k | 0 <= k < n ensures now[k] == After(was[k], TurnsOf(rounds[..turn + 1], k)) {
      OneMoreTurn(was[k], rounds, turn, k);
    }
  }

  lemma OneMoreTurn(s: Runtime, rounds: seq<Round>, turn: nat, i: nat)
    requires turn < |rounds|
    ensures After(s, TurnsOf(rounds[..turn + 1], i))
         == TurnOne(After(s, TurnsOf(rounds[..turn], i)), Turn(rounds[turn].waits(i), rounds[turn].forks(i)))
  {
    assert rounds[..turn + 1][..turn] == rounds[..turn];
    var turns := TurnsOf(rounds[..turn], i);
    var last := Turn(rounds[turn].waits(i), rounds[turn].forks(i));
    assert (turns + [last])[..|turns|] == turns;
  }

  // The start loop ended at place `f`: what was started before stays running.
  ghost predicate StoppedShort(before: seq<Runtime>, after: seq<Runtime>, count: nat, launch: Round, f: nat) {
    && f < count <= |before| == |after| && launch.forks(f) < 0
    && after[f] == before[f].(state := Failed)
    && (forall k :: 0 <= k < f ==>
          launch.forks(k) > 0 && after[k] == before[k].(state := Running, pid := launch.forks(k)))
    && (forall k :: f < k < count ==> after[k] == before[k])
  }

  // What a completed run leaves of the service at place `i`.
  ghost function Final(config: Service, launch: Round, rounds: seq<Round>, i: nat): Runtime {
    ShutOne(After(StartOne(Fresh(config), launch.forks(i)), TurnsOf(rounds, i)))
  }

  lemma FinalOk(config: Service, launch: Round, rounds: seq<Round>, i: nat)
    requires config.maxRestarts >= 0
    ensures var s := Final(config, launch, rounds, i);
      s.state in {Stopped, Failed} && s.pid <= 0 && 0 <= s.restartCount <= config.maxRestarts
    ensures config.policy != ON_FAILURE ==> Final(config, launch, rounds, i).restartCount == 0
  {
    var s := StartOne(Fresh(config), launch.forks(i));
    LaunchedOk(config, launch.forks(i));
    AfterKeeps(s, TurnsOf(rounds, i));
    if config.policy != ON_FAILURE {
      OtherPolicyNeverRestarts(s, TurnsOf(rounds, i));
    }
  }

  // init's run from a loaded registry to its exit status.
  method Init(registry: seq<Service>, launch: Round, rounds: seq<Round>) returns (status: int, s: Supervisor)
    requires |registry| <= MAX_SERVICES && forall c :: c in registry ==> c.maxRestarts >= 0
    ensures s.Valid() && s.count == |registry|
    ensures status == 0 <==> forall k :: 0 <= k < |registry| ==> launch.forks(k) > 0
    ensures status == 0 ==> forall k :: 0 <= k < |registry| ==>
              s.services[k] == Final(registry[k], launch, rounds, k)
    ensures status == 0 ==> forall k :: 0 <= k < |registry| ==>
              s.services[k].pid <= 0 && 1 <= s.forkCalls[k] <= 1 + registry[k].maxRestarts
    ensures status != 0 ==> exists f: nat ::
              f < |registry| && s.services[f].state == Failed && launch.forks(f) < 0
              && forall k :: 0 <= k < f ==> s.services[k].state == Running && s.services[k].pid == launch.forks(k) > 0
  {
    s := new Supervisor(registry);
    ghost var untouched := s.services[..];
    var ok := s.StartAll(launch);
    if !ok {
      ghost var f: nat :| StoppedShort(untouched, s.services[..], s.count, launch, f);
      assert s.services[..][f].state == Failed;
      return 1, s;
    }
    s.Supervise(rounds);
    s.StopAll();
    forall k | 0 <= k < |registry|
      ensures s.services[k] == Final(registry[k], launch, rounds, k)
      ensures s.services[k].pid <= 0 && 1 <= s.forkCalls[k] <= 1 + registry[k].maxRestarts
    {
      assert registry[k] in registry;
      FinalOk(registry[k], launch, rounds, k);
    }
    return 0, s;
  }
}
