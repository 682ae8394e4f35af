/**
 The authentication desktop: five process groups started together, recorded in a
 PID file, and stopped by signals and bounded polling.
 */
module DesktopShutdown {
  import opened Wrappers

  type Group = int

  const COMMANDS := 5

  ghost function Members(groups: seq<Group>): set<Group> {
    set g | g in groups
  }

  lemma MembersSnoc(groups: seq<Group>, g: Group)
    ensures Members(groups + [g]) == Members(groups) + {g}
  {
  }

  datatype Signal = Term | Kill

  /** A signal delivered, or aimed at a group already gone; and a look whether a group lives. */
  datatype Act = Sent(group: Group, sig: Signal) | Asked(group: Group)

  /** The signals of one loop over a list, which runs from its end to its start. */
  ghost function Aimed(groups: seq<Group>, sig: Signal): seq<Act> {
    if groups == [] then [] else Aimed(groups[1..], sig) + [Sent(groups[0], sig)]
  }

  /** Only looks, at least so many at every group listed. */
  ghost predicate Looks(acts: seq<Act>, groups: seq<Group>, times: nat) {
    && (forall a :: a in acts ==> a.Asked?)
    && forall g :: g in groups ==> multiset(acts)[Asked(g)] >= times
  }

  lemma LooksMore(acts: seq<Act>, more: seq<Act>, groups: seq<Group>, left: seq<Group>, times: nat)
    requires Looks(acts, groups, times) && Looks(more, groups, 1) && forall g :: g in left ==> g in groups
    ensures Looks(acts + more, left, times + 1)
  {
  }

  lemma {:induction false} AimedRunsBackwards(groups: seq<Group>, sig: Signal, k: nat)
    requires k < |groups|
    ensures |Aimed(groups, sig)| == |groups| && Aimed(groups, sig)[k] == Sent(groups[|groups| - 1 - k], sig)
  {
    if |groups| > 1 {
      AimedRunsBackwards(groups[1..], sig, if k < |groups| - 1 then k else 0);
    }
  }

  /**
   The process groups of the machine. Groups die whenever they like, except the hardy ones,
   which end only by a signal; a dead one stays dead.
   */
  class World {
    const hardy: set<Group>
    var living: set<Group>
    /** Every group id in use so far; ids are not used again. */
    ghost var used: set<Group>
    /** Every signal and every look, in order. */
    ghost var history: seq<Act>

    ghost predicate Valid()
      reads this
    {
      living <= used
    }

    constructor (living: set<Group>, hardy: set<Group>)
      ensures Valid() && this.living == living && used == living && history == [] && this.hardy == hardy
    {
      this.living, used, history, this.hardy := living, living, [], hardy;
    }

    /** The hardy groups that live now. */
    ghost function Hardy(): set<Group>
      reads this`living
    {
      living * hardy
    }

    /** Time passes. */
    method Pass()
      requires Valid()
      modifies this`living
      ensures Valid() && living <= old(living) && Hardy() == old(Hardy())
    {
      var left :| living * hardy <= left <= living;
      assert left * hardy == living * hardy;
      living := left;
    }

    method GroupAlive(group: Group) returns (alive: bool)
      requires Valid()
      modifies this`living, this`history
      ensures Valid() && living <= old(living) && Hardy() == old(Hardy()) && alive == (group in old(living))
      ensures history == old(history) + [Asked(group)]
    {
      alive := group in living;
      history := history + [Asked(group)];
      Pass();
    }

    /** A signal may kill or not; a dead group is no error, a refusal is. */
    method KillGroup(group: Group, sig: Signal, refused: bool) returns (ok: bool)
      requires Valid()
      modifies this`living, this`history
      ensures Valid() && living <= old(living) && (ok <==> group !in old(living) || !refused)
      ensures old(Hardy()) - {group} <= Hardy()
      ensures history == if ok then old(history) + [Sent(group, sig)] else old(history)
    {
      ok := group !in living || !refused;
      if ok {
        history := history + [Sent(group, sig)];
        if * {
          living := living - {group};
        }
      }
      Pass();
    }

    method Spawn(group: Group)
      requires Valid() && group !in used
      modifies this`living, this`used
      ensures Valid() && living <= old(living) + {group} && used == old(used) + {group}
      ensures Hardy() == old(Hardy()) + if group in hardy then {group} else {}
    {
      living, used := living + {group}, used + {group};
      Pass();
    }
  }

  datatype Termination = Stopped | StillAlive(left: seq<Group>) | SignalRefused

  datatype PidFile = PidFile(pids: seq<int>, groups: seq<Group>)

  /** One process creation: it fails, or yields a group that can be looked up or not. */
  datatype Launch = LaunchFails | Launched(group: Group, lookedUp: bool)

  datatype StartResult = Started | Reused | NotAllowed | AlreadyActive | Failed(cleanup: Termination)

  datatype StopResult = NothingToStop | InvalidFile | StopDone(termination: Termination)

  /** New process groups have ids never in use before. */
  ghost predicate Fresh(launches: seq<Launch>, used: set<Group>) {
    FreshFrom(launches, 0, used)
  }

  /** The same of the processes from the n-th on. */
  ghost predicate FreshFrom(launches: seq<Launch>, n: nat, used: set<Group>)
    requires n <= |launches|
  {
    && (forall i :: n <= i < |launches| && launches[i].Launched? ==> launches[i].group !in used)
    && (forall i, j :: n <= i < j < |launches| && launches[i].Launched? && launches[j].Launched? ==>
        launches[i].group != launches[j].group)
  }

  /** A new process group leaves the ids of the later ones new. */
  lemma FreshNext(launches: seq<Launch>, n: nat, used: set<Group>)
    requires n < |launches| && launches[n].Launched? && FreshFrom(launches, n, used)
    ensures launches[n].group !in used && FreshFrom(launches, n + 1, used + {launches[n].group})
  {
  }

  /** The groups a startup lists, the one it spawns but cannot look up, and whether all came up. */
  datatype Startup = Startup(groups: seq<Group>, lost: Option<Group>, ok: bool)

  /** What the startup makes of the processes from the n-th on. */
  function StartupFrom(launches: seq<Launch>, displayReady: bool, n: nat): Startup
    requires n <= |launches|
    decreases |launches| - n
  {
    if n == |launches| then Startup([], None, true)
    else if launches[n].LaunchFails? then Startup([], None, false)
    else if !launches[n].lookedUp then Startup([], Some(launches[n].group), false)
    else if n == 0 && !displayReady then Startup([launches[n].group], None, false)
    else
      var later := StartupFrom(launches, displayReady, n + 1);
      later.(groups := [launches[n].group] + later.groups)
  }

  /** The whole startup is what was listed so far, then the rest of it. */
  predicate Continues(launches: seq<Launch>, displayReady: bool, n: nat, groups: seq<Group>)
    requires n <= |launches|
  {
    var rest := StartupFrom(launches, displayReady, n);
    StartupFrom(launches, displayReady, 0) == rest.(groups := groups + rest.groups)
  }

  lemma ContinuesOn(launches: seq<Launch>, displayReady: bool, n: nat, groups: seq<Group>)
    requires n < |launches| && Continues(launches, displayReady, n, groups) && Up(launches[n])
    requires n == 0 ==> displayReady
    ensures Continues(launches, displayReady, n + 1, groups + [launches[n].group])
  {
    var later := StartupFrom(launches, displayReady, n + 1);
    assert groups + ([launches[n].group] + later.groups) == (groups + [launches[n].group]) + later.groups;
  }

  /** How a startup ends with the n-th process. */
  lemma ContinuesNot(launches: seq<Launch>, displayReady: bool, n: nat, groups: seq<Group>)
    requires n <= |launches| && Continues(launches, displayReady, n, groups)
    ensures n == |launches| ==> StartupFrom(launches, displayReady, 0) == Startup(groups, None, true)
    ensures n < |launches| && launches[n].LaunchFails? ==>
      StartupFrom(launches, displayReady, 0) == Startup(groups, None, false)
    ensures n < |launches| && launches[n].Launched? && !launches[n].lookedUp ==>
      StartupFrom(launches, displayReady, 0) == Startup(groups, Some(launches[n].group), false)
    ensures n == 0 < |launches| && Up(launches[0]) && !displayReady ==>
      StartupFrom(launches, displayReady, 0) == Startup([launches[0].group], None, false)
  {
    assert groups + [] == groups;
  }

  /** Every listed group was looked up; the lost one was not, and is not listed. */
  lemma {:induction false} StartupMembers(launches: seq<Launch>, displayReady: bool, n: nat, used: set<Group>)
    requires n <= |launches| && Fresh(launches, used)
    ensures var s := StartupFrom(launches, displayReady, n);
      && (forall g :: g in s.groups ==> g !in used && Launched(g, true) in launches[n..])
      && (s.lost.Some? ==>
          s.lost.value !in used && s.lost.value !in s.groups && Launched(s.lost.value, false) in launches[n..])
    decreases |launches| - n
  {
    if n < |launches| {
      assert launches[n] == launches[n..][0];
      if launches[n].Launched? {
        StartupMembers(launches, displayReady, n + 1, used);
        assert forall l :: l in launches[n + 1..] ==> l in launches[n..];
        assert forall i :: n < i < |launches| && launches[i].Launched? ==> launches[i].group != launches[n].group;
      }
    }
  }

  /** All come up exactly when every process starts, is looked up, and the display is ready. */
  lemma {:induction false} StartupOk(launches: seq<Launch>, displayReady: bool, n: nat)
    requires n <= |launches|
    ensures var s := StartupFrom(launches, displayReady, n);
      && (s.ok <==> (n == 0 && |launches| > 0 ==> displayReady) && forall i :: n <= i < |launches| ==> Up(launches[i]))
      && (s.ok ==> s.lost.None? && |s.groups| == |launches| - n)
      && (s.ok ==> forall i :: n <= i < |launches| ==> s.groups[i - n] == launches[i].group)
    decreases |launches| - n
  {
    if n < |launches| {
      StartupOk(launches, displayReady, n + 1);
    }
  }

  predicate Up(launch: Launch) {
    launch.Launched? && launch.lookedUp
  }

  function Extra(lost: Option<Group>): set<Group> {
    if lost.Some? then {lost.value} else {}
  }

  predicate AllUp(launches: seq<Launch>, displayReady: bool) {
    displayReady && forall i :: 0 <= i < |launches| ==> Up(launches[i])
  }

  /** A startup spawns groups with new ids only, and does not list the lost one. */
  lemma StartupGroups(launches: seq<Launch>, displayReady: bool, used: set<Group>)
    requires Fresh(launches, used)
    ensures var s := StartupFrom(launches, displayReady, 0);
      Members(s.groups) !! used && Extra(s.lost) !! used + Members(s.groups)
  {
    StartupMembers(launches, displayReady, 0, used);
    var s := StartupFrom(launches, displayReady, 0);
    forall g | g in Members(s.groups) ensures g !in used && g !in Extra(s.lost) {
      assert g in s.groups;
    }
  }

  /** A controller's groups, the group ids in use, and the living groups. */
  datatype Sets = Sets(mine: set<Group>, used: set<Group>, living: set<Group>)

  /** Some groups were spawned in between, and any may have died. */
  ghost predicate Grown(before: Sets, after: Sets, more: set<Group>) {
    after.mine == before.mine + more && after.used == before.used + more && after.living <= before.living + more
  }

  lemma GrownMore(before: Sets, middle: Sets, after: Sets, groups: seq<Group>, g: Group)
    requires Grown(before, middle, Members(groups)) && Grown(middle, after, {g})
    ensures Grown(before, after, Members(groups) + Extra(Some(g)))
    ensures Grown(before, after, Members(groups + [g]) + Extra(None)) && Grown(before, after, Members(groups + [g]))
  {
    MembersSnoc(groups, g);
  }

  class Desktop {
    const world: World
    const attempts: nat
    var pidFile: Option<PidFile>
    /** Groups this controller has spawned, and those it has lost track of. */
    ghost var mine: set<Group>
    ghost var orphans: set<Group>

    /** Every living group of the controller is recorded in the PID file or a known orphan. */
    ghost predicate Valid()
      reads this, world
    {
      && world.Valid()
      && Recorded() <= mine <= world.used
      && LivingWithin(Recorded() + orphans)
    }

    ghost predicate LivingWithin(places: set<Group>)
      reads this, world
    {
      forall g :: g in mine && g in world.living ==> g in places
    }

    ghost function Recorded(): set<Group>
      reads this
    {
      if pidFile.Some? then Members(pidFile.value.groups) else {}
    }

    /** The PID file names as many processes as groups. */
    ghost predicate HealthyFile()
      reads this
    {
      pidFile.Some? && |pidFile.value.pids| == |pidFile.value.groups|
    }

    /** A controller that may find a PID file left by an earlier one. */
    constructor (world: World, attempts: nat, pidFile: Option<PidFile>)
      requires world.Valid()
      requires pidFile.Some? ==> Members(pidFile.value.groups) <= world.used
      ensures Valid() && this.world == world && this.attempts == attempts && this.pidFile == pidFile
      ensures mine == Recorded() && orphans == {}
    {
      this.world, this.attempts, this.pidFile, orphans := world, attempts, pidFile, {};
      mine := if pidFile.Some? then Members(pidFile.value.groups) else {};
    }

    /** One look at every group of a list, in order. */
    method Look(groups: seq<Group>) returns (left: seq<Group>)
      requires world.Valid()
      modifies world`living, world`history
      ensures world.Valid() && world.living <= old(world.living) && world.Hardy() == old(world.Hardy())
      ensures forall g :: g in left ==> g in groups && g in old(world.living)
      ensures forall g :: g in groups && g in world.living ==> g in left
      ensures |left| <= |groups|
      ensures |left| == |groups| ==> left == groups
      ensures (forall g :: g in groups ==> g in world.living) ==> left == groups
      ensures old(world.history) <= world.history && Looks(world.history[|old(world.history)|..], groups, 1)
    {
      left := [];
      ghost var asked := [];
      for n := 0 to |groups|
        invariant world.history == old(world.history) + asked && Looks(asked, groups[..n], 1)
        invariant |left| < n ==> exists i :: 0 <= i < n && groups[i] !in world.living
        invariant world.Valid() && world.living <= old(world.living) && world.Hardy() == old(world.Hardy())
        invariant forall g :: g in left ==> g in groups && g in old(world.living)
        invariant forall i :: 0 <= i < n && groups[i] in world.living ==> groups[i] in left
        invariant |left| <= n && (|left| == n ==> left == groups[..n])
      {
        var alive := world.GroupAlive(groups[n]);
        asked := asked + [Asked(groups[n])];
        if alive {
          left := left + [groups[n]];
        }
      }
      assert groups[..|groups|] == groups && world.history[|old(world.history)|..] == asked;
      if |left| < |groups| {
        ghost var i :| 0 <= i < |groups| && groups[i] !in world.living;
        ghost var dead := groups[i];
        assert dead in groups && dead !in world.living;
      } else {
        assert left == groups;
      }
    }

    /**
     Polls until every group is gone or the attempts are used up. What it returns lies
     between the groups alive when it returns and those alive at the start of its last look.
     */
    method WaitForGroups(groups: seq<Group>)
      returns (remaining: seq<Group>, ghost lastLook: set<Group>, ghost looks: nat)
      requires world.Valid()
      modifies world`living, world`history
      ensures old(world.history) <= world.history
      ensures Looks(world.history[|old(world.history)|..], remaining, attempts + 1)
      ensures world.Valid() && world.living <= lastLook <= old(world.living) && world.Hardy() == old(world.Hardy())
      ensures forall g :: g in remaining ==> g in groups && g in lastLook
      ensures forall g :: g in groups && g in world.living ==> g in remaining
      ensures looks <= attempts + 1 && (remaining != [] ==> looks == attempts + 1)
      ensures |remaining| <= |groups|
    {
      remaining, looks := groups, 0;
      ghost var asked := [];
      for n := 0 to attempts
        invariant world.history == old(world.history) + asked && Looks(asked, remaining, n)
        invariant looks == n && |remaining| <= |groups|
        invariant world.Valid() && world.living <= old(world.living) && world.Hardy() == old(world.Hardy())
        invariant forall g :: g in remaining ==> g in groups
        invariant forall g :: g in groups && g in world.living ==> g in remaining
      {
        lastLook, looks := world.living, looks + 1;
        ghost var before, was := remaining, world.history;
        remaining := Look(remaining);
        LooksMore(asked, world.history[|was|..], before, remaining, n);
        asked := asked + world.history[|was|..];
        if remaining == [] {
          assert world.history[|old(world.history)|..] == asked;
          return;
        }
        world.Pass();
      }
      lastLook, looks := world.living, looks + 1;
      ghost var before, was := remaining, world.history;
      remaining := Look(remaining);
      LooksMore(asked, world.history[|was|..], before, remaining, attempts);
      asked := asked + world.history[|was|..];
      assert world.history[|old(world.history)|..] == asked;
    }

    /** The loop stopped at some refusing group, after signalling every later one. */
    ghost predicate RefusedAt(
      groups: seq<Group>, sig: Signal, refusing: set<Group>, before: seq<Act>)
      reads world
    {
      exists n :: (
        && 0 <= n < |groups|
        && groups[n] in refusing
        && world.history == before + Aimed(groups[n + 1..], sig))
    }

    /** Signals the groups from the last to the first; a refusal stops the loop. */
    method SignalGroups(groups: seq<Group>, sig: Signal, refusing: set<Group>) returns (sent: bool)
      requires world.Valid()
      modifies world`living, world`history
      ensures world.Valid() && world.living <= old(world.living)
      ensures old(world.Hardy()) - Members(groups) <= world.Hardy()
      ensures sent ==> world.history == old(world.history) + Aimed(groups, sig)
      ensures !sent ==> RefusedAt(groups, sig, refusing * old(world.living), old(world.history))
    {
      var n := |groups|;
      while n > 0
        invariant world.Valid() && world.living <= old(world.living) && 0 <= n <= |groups|
        invariant old(world.Hardy()) - Members(groups) <= world.Hardy()
        invariant world.history == old(world.history) + Aimed(groups[n..], sig)
      {
        n := n - 1;
        assert groups[n..][1..] == groups[n + 1..] && groups[n] in Members(groups);
        var ok := world.KillGroup(groups[n], sig, groups[n] in refusing);
        if !ok {
          return false;
        }
      }
      assert groups[n..] == groups;
      return true;
    }

    /**
     Asks, then kills what remains. It returns normally only when every group is dead, and
     reports groups still alive only after both signals reached them.
     */
    method Terminate(groups: seq<Group>, refusing: set<Group>)
      returns (t: Termination, ghost killed: seq<Group>, ghost waited: seq<Act>, ghost after: seq<Act>)
      requires world.Valid()
      modifies world`living, world`history
      ensures world.Valid() && world.living <= old(world.living)
      ensures old(world.Hardy()) - Members(groups) <= world.Hardy()
      ensures forall g :: g in killed ==> g in groups
      ensures !t.SignalRefused? ==>
        world.history == old(world.history) + Aimed(groups, Term) + waited + Aimed(killed, Kill) + after
      ensures Looks(waited, killed, attempts + 1) && Looks(after, [], 0)
      ensures t.Stopped? ==> forall g :: g in groups ==> g !in world.living
      ensures t.StillAlive? ==> t.left != [] && forall g :: g in groups && g in world.living ==> g in t.left
      ensures t.StillAlive? ==> forall g :: g in t.left ==> g in killed
      ensures t.StillAlive? ==> groups != []
      ensures t.SignalRefused? ==> exists g :: g in groups && g in refusing && g in old(world.living)
    {
      killed, waited, after := [], [], [];
      var asked := SignalGroups(groups, Term, refusing);
      if !asked {
        ghost var n :| 0 <= n < |groups| && groups[n] in refusing * old(world.living);
        ghost var g := groups[n];
        assert g in groups && g in refusing && g in old(world.living);
        return SignalRefused, killed, waited, after;
      }
      ghost var was := world.history;
      var remaining, _, _ := WaitForGroups(groups);
      waited := world.history[|was|..];
      if remaining != [] {
        killed := remaining;
        forall g | g in Members(remaining) ensures g in Members(groups) {
          assert g in remaining;
        }
        var sent := SignalGroups(remaining, Kill, refusing);
        if !sent {
          ghost var n :| 0 <= n < |remaining| && remaining[n] in refusing * old(world.living);
          ghost var g := remaining[n];
          assert g in groups && g in refusing && g in old(world.living);
          return SignalRefused, killed, waited, after;
        }
        was := world.history;
        var left, _, _ := WaitForGroups(remaining);
        after := world.history[|was|..];
        remaining := left;
      }
      t := if remaining != [] then StillAlive(remaining) else Stopped;
    }

    ghost function Now(): Sets
      reads this, world
    {
      Sets(mine, world.used, world.living)
    }

    method LaunchOne(group: Group)
      requires world.Valid() && group !in world.used
      modifies this`mine, world`living, world`used
      ensures world.Valid() && Grown(old(Now()), Now(), {group}) && {group} * world.hardy <= world.living
    {
      world.Spawn(group);
      mine := mine + {group};
      assert {group} * world.hardy <= world.Hardy();
    }

    /** Starts the first process, waits for the display, then starts the others. */
    method LaunchAll(launches: seq<Launch>, displayReady: bool)
      returns (ok: bool, pids: seq<int>, groups: seq<Group>, ghost lost: Option<Group>)
      requires world.Valid() && |launches| == COMMANDS && Fresh(launches, world.used)
      modifies this`mine, world`living, world`used
      ensures Startup(groups, lost, ok) == StartupFrom(launches, displayReady, 0) && (ok ==> pids == groups)
      ensures world.Valid() && Grown(old(Now()), Now(), Members(groups) + Extra(lost))
      ensures Extra(lost) * world.hardy <= world.living
    {
      pids, groups := [], [];
      for n := 0 to COMMANDS
        invariant world.Valid() && Grown(old(Now()), Now(), Members(groups)) && pids == groups
        invariant Continues(launches, displayReady, n, groups) && |groups| == n
        invariant FreshFrom(launches, n, world.used)
      {
        if launches[n].LaunchFails? {
          ContinuesNot(launches, displayReady, n, groups);
          return false, pids, groups, None;
        }
        FreshNext(launches, n, world.used);
        var group := launches[n].group;
        ghost var before := Now();
        LaunchOne(group);
        GrownMore(old(Now()), before, Now(), groups, group);
        pids := pids + [group];
        if !launches[n].lookedUp {
          ContinuesNot(launches, displayReady, n, groups);
          return false, pids, groups, Some(group);
        }
        ghost var listed := groups;
        groups := groups + [group];
        if n == 0 && !displayReady {
          ContinuesNot(launches, displayReady, n, listed);
          return false, pids, groups, None;
        }
        ContinuesOn(launches, displayReady, n, listed);
      }
      ContinuesNot(launches, displayReady, COMMANDS, groups);
      return true, pids, groups, None;
    }

    /**
     Starts everything and writes the PID file; a failure leaves none of the new groups alive
     unless the cleanup itself fails. A process whose group could not be looked up escapes it.
     */
    method BringUp(launches: seq<Launch>, displayReady: bool, ready: bool, fileMode: bool, refusing: set<Group>)
      returns (r: StartResult, ghost lost: Option<Group>)
      requires Valid() && pidFile.None? && |launches| == 5 && Fresh(launches, world.used)
      modifies this, world
      ensures Valid() && (r.Started? || r.Failed?)
      ensures r.Started? <==>
        && (forall i :: 0 <= i < 5 ==> launches[i].Launched? && launches[i].lookedUp)
        && displayReady && ready && fileMode
      ensures r.Started? ==> orphans == old(orphans) && lost.None? && pidFile.Some?
      ensures r.Started? ==> pidFile.value.pids == pidFile.value.groups && |pidFile.value.groups| == 5
      ensures r.Started? ==> forall i :: 0 <= i < 5 ==> pidFile.value.groups[i] == launches[i].group
      ensures r.Failed? ==> lost == StartupFrom(launches, displayReady, 0).lost
      ensures r.Failed? && r.cleanup.Stopped? ==> LivingWithin(old(orphans) + Extra(lost))
      ensures r.Failed? && r.cleanup.StillAlive? ==> StartupFrom(launches, displayReady, 0).groups != []
      ensures r.Failed? && r.cleanup.SignalRefused? ==> refusing != {}
      ensures Extra(lost) * world.hardy <= world.living
      ensures forall g :: g in world.living && g in old(world.used) ==> g in old(world.living)
    {
      StartupGroups(launches, displayReady, world.used);
      StartupOk(launches, displayReady, 0);
      var ok, pids, groups;
      ok, pids, groups, lost := LaunchAll(launches, displayReady);
      assert LivingWithin(orphans + Extra(lost) + Members(groups));
      if ok && ready {
        pidFile := Some(PidFile(pids, groups));
        if fileMode {
          return Started, None;
        }
      }
      assert Extra(lost) * world.hardy <= world.Hardy() - Members(groups);
      var cleanup, _, _, _ := Terminate(groups, refusing);
      assert world.Hardy() <= world.living;
      orphans := orphans + Extra(lost) + if cleanup.Stopped? then {} else Members(groups);
      r := Failed(cleanup);
    }

    /** Starts the desktop, or leaves a healthy one as it is; nothing is spawned beside a living recorded group. */
    method Start(
      allowed: bool, healthy: bool, launches: seq<Launch>, displayReady: bool, ready: bool, fileMode: bool,
      refusing: set<Group>) returns (r: StartResult, ghost lost: Option<Group>)
      requires Valid() && |launches| == 5 && Fresh(launches, world.used)
      modifies this, world
      ensures Valid()
      ensures r.NotAllowed? || r.AlreadyActive? || r.Reused? ==>
        mine == old(mine) && orphans == old(orphans) && pidFile == old(pidFile) && lost.None?
      ensures r.NotAllowed? <==> !allowed
      ensures r.Reused? ==> pidFile.Some? && healthy && forall g :: g in Recorded() ==> g in old(world.living)
      ensures r.AlreadyActive? ==> exists g :: g in Recorded() && g in old(world.living)
      ensures allowed && healthy && old(HealthyFile()) && (forall g :: g in old(Recorded()) ==> g in world.living) ==>
        r.Reused?
      ensures allowed && (exists g :: g in old(Recorded()) && g in world.living) ==> r.Reused? || r.AlreadyActive?
      ensures r.Started? || r.Failed? ==> (r.Started? <==>
        && (forall i :: 0 <= i < 5 ==> launches[i].Launched? && launches[i].lookedUp)
        && displayReady && ready && fileMode)
      ensures r.Started? || r.Failed? ==> forall g :: g in old(Recorded()) ==> g !in world.living
      ensures r.Started? ==> orphans == old(orphans) && lost.None? && pidFile.Some?
      ensures r.Started? ==> pidFile.value.pids == pidFile.value.groups && |pidFile.value.groups| == 5
      ensures r.Started? ==> forall i :: 0 <= i < 5 ==> pidFile.value.groups[i] == launches[i].group
      ensures r.Failed? ==> lost == StartupFrom(launches, displayReady, 0).lost
      ensures r.Failed? && r.cleanup.Stopped? ==> LivingWithin(old(orphans) + Extra(lost))
      ensures r.Failed? && r.cleanup.StillAlive? ==> StartupFrom(launches, displayReady, 0).groups != []
      ensures r.Failed? && r.cleanup.SignalRefused? ==> refusing != {}
      ensures Extra(lost) * world.hardy <= world.living
    {
      lost := None;
      if !allowed {
        return NotAllowed, None;
      }
      if pidFile.Some? {
        var file := pidFile.value;
        var living := Look(file.groups);
        if |file.pids| == |file.groups| && |living| == |file.groups| && healthy {
          return Reused, None;
        }
        if living != [] {
          ghost var g := living[0];
          assert g in living && g in file.groups && g in old(world.living);
          assert g in Members(file.groups);
          return AlreadyActive, None;
        }
        pidFile := None;
      }
      r, lost := BringUp(launches, displayReady, ready, fileMode, refusing);
    }

    /** Removes the PID file only when every recorded group is dead. */
    method Stop(refusing: set<Group>) returns (r: StopResult)
      requires Valid()
      modifies this`pidFile, world`living, world`history
      ensures Valid()
      ensures r.NothingToStop? <==> old(pidFile).None?
      ensures r.InvalidFile? <==> old(pidFile).Some? && |old(pidFile).value.pids| != |old(pidFile).value.groups|
      ensures pidFile == if r.StopDone? && r.termination.Stopped? then None else old(pidFile)
      ensures r.StopDone? && r.termination.Stopped? ==> forall g :: g in old(Recorded()) ==> g !in world.living
      ensures pidFile.None? ==> LivingWithin(orphans)
    {
      if pidFile.None? {
        return NothingToStop;
      }
      var file := pidFile.value;
      if |file.pids| != |file.groups| {
        return InvalidFile;
      }
      ghost var recorded := Recorded();
      var t, _, _, _ := Terminate(file.groups, refusing);
      assert t.Stopped? ==> forall g :: g in recorded ==> g !in world.living;
      if t.Stopped? {
        pidFile := None;
      }
      return StopDone(t);
    }
  }

  /** A first process that cannot be looked up, but runs until it is told to stop, outlives the failed start. */
  method LookupFailureLeaksProcess(group: Group) returns (r: StartResult, world: World)
    ensures fresh(world) && r.Failed? && r.cleanup.Stopped? && group in world.living
  {
    world := new World({}, {group});
    var desktop := new Desktop(world, 100, None);
    var launches :=
      [Launched(group, false), LaunchFails, LaunchFails, LaunchFails, LaunchFails];
    assert StartupFrom(launches, true, 0) == Startup([], Some(group), false);
    ghost var lost;
    r, lost := desktop.Start(true, true, launches, true, true, true, {});
    assert lost == Some(group);
  }
}
