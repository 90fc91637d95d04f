/** Health probes and the failover groups that follow them. */
module Failover {
  import opened Bytes

  // ---------------------------------------------------------------------
  // Probes
  // ---------------------------------------------------------------------

  /** The health fields of one backend; the failure counter is 32 bits wide. */
  datatype Health = Health(threshold: nat, failCount: nat, unhealthy: bool, latencyMs: nat)

  const WRAP := 0x1_0000_0000

  /** The outcome of one probe: the latency, or nothing. */
  type Probe = Option<nat>

  function AfterProbe(h: Health, result: Probe): Health {
    match result
    case Some(latency) => Health(h.threshold, 0, false, latency)
    case None =>
      var count := (h.failCount + 1) % WRAP;
      h.(failCount := count, unhealthy := h.unhealthy || count >= h.threshold)
  }

  /** A registered backend as the prober and the failover monitor share it. */
  class BackendHealth {
    const threshold: nat
    var failCount: nat
    var unhealthy: bool
    var latencyMs: nat

    constructor (threshold: nat)
      ensures State() == Fresh(threshold)
    {
      this.threshold := threshold;
      failCount, unhealthy, latencyMs := 0, false, 0;
    }

    ghost function State(): Health
      reads this
    {
      Health(threshold, failCount, unhealthy, latencyMs)
    }

    /** The body of the probe loop for one result. */
    method Record(result: Probe)
      requires failCount < WRAP
      modifies this
      ensures failCount < WRAP
      ensures State() == AfterProbe(old(State()), result)
    {
      if result.Some? {
        latencyMs := result.value;
        if failCount > 0 {
          failCount := 0;
        }
        if unhealthy {
          unhealthy := false;
        }
      } else {
        failCount := (failCount + 1) % WRAP;
        if failCount >= threshold {
          if !unhealthy {
            unhealthy := true;
          }
        }
      }
    }
  }

  function Fresh(threshold: nat): Health {
    Health(threshold, 0, false, 0)
  }

  function AfterProbes(threshold: nat, probes: seq<Probe>): Health {
    if probes == [] then Fresh(threshold)
    else AfterProbe(AfterProbes(threshold, probes[..|probes| - 1]), probes[|probes| - 1])
  }

  /** The failures since the last success. */
  function Streak(probes: seq<Probe>): (n: nat)
    ensures n <= |probes|
    ensures forall i :: |probes| - n <= i < |probes| ==> probes[i] == None
    ensures n < |probes| ==> probes[|probes| - n - 1].Some?
  {
    if probes == [] || probes[|probes| - 1].Some? then 0 else 1 + Streak(probes[..|probes| - 1])
  }

  /** The last `k` probes all failed. */
  predicate LastFailed(probes: seq<Probe>, k: nat) {
    k <= |probes| && forall i :: |probes| - k <= i < |probes| ==> probes[i] == None
  }

  /** A backend is flagged exactly when its last `threshold` probes (one, for a threshold of zero)
      all failed, even after the failure counter has wrapped around. */
  lemma {:induction false} FlaggedExactly(threshold: nat, probes: seq<Probe>)
    requires threshold < WRAP
    ensures AfterProbes(threshold, probes).threshold == threshold
    ensures AfterProbes(threshold, probes).unhealthy <==> LastFailed(probes, if threshold == 0 then 1 else threshold)
    ensures !AfterProbes(threshold, probes).unhealthy ==> AfterProbes(threshold, probes).failCount == Streak(probes) < WRAP
  {
    if probes != [] {
      var before := probes[..|probes| - 1];
      FlaggedExactly(threshold, before);
      var k := if threshold == 0 then 1 else threshold;
      if probes[|probes| - 1] == None {
        assert LastFailed(before, k) ==> LastFailed(probes, k) by {
          assert forall i :: 0 <= i < |before| ==> before[i] == probes[i];
        }
        StreakIsLastFailed(probes, k);
        StreakIsLastFailed(before, k);
      }
    }
  }

  lemma StreakIsLastFailed(probes: seq<Probe>, k: nat)
    ensures LastFailed(probes, k) <==> k <= Streak(probes)
  {
    var n := Streak(probes);
    if n < |probes| && n < k <= |probes| {
      assert probes[|probes| - n - 1].Some?;
    }
  }

  // ---------------------------------------------------------------------
  // Groups
  // ---------------------------------------------------------------------

  datatype Group = Group(primary: string, standbys: seq<string>, autoFailback: bool, active: string)

  type Registry = map<string, Health>

  predicate Flagged(servers: Registry, name: string) {
    name in servers && servers[name].unhealthy
  }

  predicate Healthy(servers: Registry, name: string) {
    name in servers && !servers[name].unhealthy
  }

  /** The first healthy name from `i` on. */
  function FirstHealthy(names: seq<string>, servers: Registry, i: nat): (r: Option<nat>)
    requires i <= |names|
    ensures r.Some? ==> i <= r.value < |names| && Healthy(servers, names[r.value])
    ensures r.Some? ==> forall j :: i <= j < r.value ==> !Healthy(servers, names[j])
    ensures r.None? ==> forall j :: i <= j < |names| ==> !Healthy(servers, names[j])
    decreases |names| - i
  {
    if i == |names| then None
    else if Healthy(servers, names[i]) then Some(i)
    else FirstHealthy(names, servers, i + 1)
  }

  /** `Iterator::position`. */
  function Position(names: seq<string>, name: string): (r: Option<nat>)
    ensures r.Some? ==> r.value < |names| && names[r.value] == name && name !in names[..r.value]
    ensures r.None? <==> name !in names
  {
    if names == [] then None
    else if names[0] == name then Some(0)
    else
      var rest := Position(names[1..], name);
      if rest.None? then None
      else
        assert names[..rest.value + 1] == [names[0]] + names[1..][..rest.value];
        Some(rest.value + 1)
  }

  /** One failover decision. */
  function Check(g: Group, servers: Registry): (g': Group) {
    if Flagged(servers, g.active) then
      if g.active == g.primary then
        if g.standbys != [] && Healthy(servers, g.standbys[0]) then g.(active := g.standbys[0]) else g
      else
        var at := Position(g.standbys, g.active);
        if at.None? then g
        else
          var next := FirstHealthy(g.standbys, servers, at.value + 1);
          if next.None? then g else g.(active := g.standbys[next.value])
    else if g.autoFailback && g.active != g.primary && Healthy(servers, g.primary) then g.(active := g.primary)
    else g
  }

  /** The table built from configuration entries in order. */
  function Loaded(configs: seq<(string, Group)>): map<string, Group> {
    if configs == [] then map[]
    else
      var (name, config) := configs[|configs| - 1];
      Loaded(configs[..|configs| - 1])[name := config.(active := config.primary)]
  }

  /** Every configured group is there, started at its primary, from the last entry of its name. */
  lemma {:induction false} LoadedGroups(configs: seq<(string, Group)>, name: string)
    ensures name !in Loaded(configs) ==> forall c <- configs :: c.0 != name
    ensures name in Loaded(configs) ==>
      var g := Loaded(configs)[name];
      && g.active == g.primary
      && exists i ::
           && 0 <= i < |configs| && configs[i].0 == name && g == configs[i].1.(active := configs[i].1.primary)
           && forall j :: i < j < |configs| ==> configs[j].0 != name
  {
    if configs != [] {
      var init := configs[..|configs| - 1];
      LoadedGroups(init, name);
      assert configs == init + [configs[|configs| - 1]];
      if configs[|configs| - 1].0 != name && name in Loaded(init) {
        var g := Loaded(init)[name];
        var i :| 0 <= i < |init| && init[i].0 == name && g == init[i].1.(active := init[i].1.primary)
          && forall j :: i < j < |init| ==> init[j].0 != name;
        assert configs[i] == init[i];
        assert forall j :: i < j < |configs| ==> configs[j].0 != name;
      }
    }
  }

  class FailoverManager {
    var groups: map<string, Group>

    constructor ()
      ensures groups == map[]
    {
      groups := map[];
    }

    /** `load_groups`. */
    method LoadGroups(configs: seq<(string, Group)>)
      modifies this
      ensures groups == Loaded(configs)
    {
      groups := map[];
      for n := 0 to |configs|
        invariant groups == Loaded(configs[..n])
      {
        var (name, config) := configs[n];
        assert configs[..n + 1][..n] == configs[..n];
        groups := groups[name := config.(active := config.primary)];
      }
      assert configs[..|configs|] == configs;
    }

    /** `check_group_failover`. */
    method CheckGroup(name: string, servers: Registry)
      modifies this
      ensures groups == if name in old(groups) then old(groups)[name := Check(old(groups)[name], servers)] else old(groups)
    {
      if name !in groups {
        return;
      }
      var g := groups[name];
      var currentUnhealthy := g.active in servers && servers[g.active].unhealthy;
      var primaryHealthy := g.primary in servers && !servers[g.primary].unhealthy;
      if currentUnhealthy {
        if g.active == g.primary {
          if g.standbys != [] {
            var standby := g.standbys[0];
            if standby in servers && !servers[standby].unhealthy {
              groups := groups[name := g.(active := standby)];
            }
          }
        } else {
          var at := Position(g.standbys, g.active);
          if at.Some? {
            for i := at.value + 1 to |g.standbys|
              invariant groups == old(groups)
              invariant FirstHealthy(g.standbys, servers, at.value + 1) == FirstHealthy(g.standbys, servers, i)
            {
              var standby := g.standbys[i];
              if standby in servers && !servers[standby].unhealthy {
                groups := groups[name := g.(active := standby)];
                return;
              }
            }
          }
        }
      } else if g.autoFailback && g.active != g.primary && primaryHealthy {
        groups := groups[name := g.(active := g.primary)];
      }
    }

    /** `check_and_failover`: every group is decided once, in whatever order the table yields them. */
    method CheckAll(servers: Registry)
      modifies this
      ensures groups == map name | name in old(groups) :: Check(old(groups)[name], servers)
    {
      var todo := groups.Keys;
      while todo != {}
        invariant todo <= groups.Keys == old(groups).Keys
        invariant forall name <- groups :: groups[name] == if name in todo then old(groups)[name] else Check(old(groups)[name], servers)
        decreases |todo|
      {
        var name :| name in todo;
        CheckGroup(name, servers);
        todo := todo - {name};
      }
    }
  }

  // ---------------------------------------------------------------------
  // What one decision does
  // ---------------------------------------------------------------------

  predicate Member(g: Group, name: string) {
    name == g.primary || name in g.standbys
  }

  /** A swap to a standby happens only away from a flagged active; every swap goes to a registered,
      unflagged member. */
  lemma SwapIsJustified(g: Group, servers: Registry)
    requires Member(g, g.active)
    ensures var g' := Check(g, servers);
      && g' == g.(active := g'.active)
      && Member(g', g'.active)
      && (g'.active != g.active ==>
           && Healthy(servers, g'.active)
           && (if Flagged(servers, g.active) then g'.active in g.standbys
               else g.autoFailback && g'.active == g.primary))
  {
  }

  /** What a pass makes of the active server, given who is down and who is up. The primary is left for
      the first standby only; a standby, met first at `i`, for the next one after `i` that is up; and a
      server that is not down only for the primary, with failback. */
  ghost predicate Decides(g: Group, down: string -> bool, up: string -> bool, next: string) {
    if !down(g.active) then
      next == if g.autoFailback && g.active != g.primary && up(g.primary) then g.primary else g.active
    else if g.active == g.primary then
      next == if g.standbys != [] && up(g.standbys[0]) then g.standbys[0] else g.active
    else
      && (g.active !in g.standbys ==> next == g.active)
      && forall i: nat :: FirstMet(g.standbys, g.active, i) ==> NextUp(g.standbys, up, i, g.active, next)
  }

  predicate FirstMet(names: seq<string>, name: string, i: nat) {
    i < |names| && names[i] == name && name !in names[..i]
  }

  /** `next` is the first name after `i` that is up, or `active` if there is none. */
  ghost predicate NextUp(names: seq<string>, up: string -> bool, i: nat, active: string, next: string) {
    && ((forall j :: i < j < |names| ==> !up(names[j])) ==> next == active)
    && (forall j :: i < j < |names| && up(names[j]) && (forall k :: i < k < j ==> !up(names[k])) ==> next == names[j])
  }

  lemma FirstMetAt(names: seq<string>, name: string, i: nat)
    requires FirstMet(names, name, i)
    ensures Position(names, name) == Some(i)
  {
    var at := Position(names, name).value;
    assert forall q :: 0 <= q < i ==> names[q] in names[..i];
    assert forall q :: 0 <= q < at ==> names[q] in names[..at];
  }

  lemma FirstHealthyIsNext(names: seq<string>, servers: Registry, i: nat, active: string)
    requires i < |names|
    ensures var r := FirstHealthy(names, servers, i + 1);
      NextUp(names, n => Healthy(servers, n), i, active, if r.None? then active else names[r.value])
  {
    var r := FirstHealthy(names, servers, i + 1);
    hide FirstHealthy;
    forall j | i < j < |names| && Healthy(servers, names[j]) && (forall k :: i < k < j ==> !Healthy(servers, names[k]))
      ensures r == Some(j)
    {
    }
  }

  /** One decision, completely. */
  lemma CheckExactly(g: Group, servers: Registry)
    ensures Check(g, servers) == g.(active := Check(g, servers).active)
    ensures Decides(g, n => Flagged(servers, n), n => Healthy(servers, n), Check(g, servers).active)
  {
    hide FirstHealthy, Position, NextUp, FirstMet;
    var next := Check(g, servers).active;
    if Flagged(servers, g.active) && g.active != g.primary {
      forall i: nat | FirstMet(g.standbys, g.active, i)
        ensures NextUp(g.standbys, n => Healthy(servers, n), i, g.active, next)
      {
        FirstMetAt(g.standbys, g.active, i);
        FirstHealthyIsNext(g.standbys, servers, i, g.active);
      }
    }
  }

  /** The latency kept is that of the last probe that succeeded. */
  lemma {:induction false} LatencyIsLast(threshold: nat, probes: seq<Probe>)
    ensures var n := Streak(probes);
      AfterProbes(threshold, probes).latencyMs == if n == |probes| then 0 else probes[|probes| - n - 1].value
  {
    if probes != [] {
      var before := probes[..|probes| - 1];
      LatencyIsLast(threshold, before);
      StreakStep(probes);
      assert forall i :: 0 <= i < |before| ==> before[i] == probes[i];
    }
  }

  lemma StreakStep(probes: seq<Probe>)
    requires probes != []
    ensures Streak(probes) == if probes[|probes| - 1].Some? then 0 else 1 + Streak(probes[..|probes| - 1])
  {
  }

  /** The documentation has a failing primary replaced by the first healthy standby of the list. The
      code looks at the first standby alone, so it does that exactly when the first standby is
      healthy or none is. */
  lemma PrimaryFailover(g: Group, servers: Registry)
    requires g.active == g.primary && Flagged(servers, g.primary)
    ensures var documented := FirstHealthy(g.standbys, servers, 0);
      Check(g, servers).active == (if documented.None? then g.primary else g.standbys[documented.value])
      <==> documented.None? || Healthy(servers, g.standbys[0])
  {
    var documented := FirstHealthy(g.standbys, servers, 0);
    if documented.Some? {
      assert g.standbys[documented.value] != g.primary;
    }
  }

  // ---------------------------------------------------------------------
  // Runs
  // ---------------------------------------------------------------------

  datatype Event =
    | Probed(name: string, result: Probe)
    | Registered(server: string, threshold: nat)
    | Removed(gone: string)
    | Pass

  datatype System = System(servers: Registry, group: Group)

  function Apply(s: System, e: Event): System {
    match e
    case Probed(name, result) =>
      if name in s.servers then s.(servers := s.servers[name := AfterProbe(s.servers[name], result)]) else s
    case Registered(name, threshold) => s.(servers := s.servers[name := Fresh(threshold)])
    case Removed(name) => s.(servers := s.servers - {name})
    case Pass => s.(group := Check(s.group, s.servers))
  }

  function Run(s: System, es: seq<Event>): System {
    if es == [] then s else Apply(Run(s, es[..|es| - 1]), es[|es| - 1])
  }

  /** The probes of a server since it was last registered, if it is. */
  function History(es: seq<Event>, name: string): Option<(nat, seq<Probe>)> {
    if es == [] then None
    else
      var before := History(es[..|es| - 1], name);
      match es[|es| - 1]
      case Probed(n, result) =>
        if n == name && before.Some? then Some((before.value.0, before.value.1 + [result])) else before
      case Registered(n, threshold) => if n == name then Some((threshold, [])) else before
      case Removed(n) => if n == name then None else before
      case Pass => before
  }

  /** In every run the flag of every registered server says what its last probes were. */
  lemma {:induction false} HealthIsHistory(g: Group, es: seq<Event>, name: string)
    ensures var servers := Run(System(map[], g), es).servers;
      match History(es, name)
      case None => name !in servers
      case Some((threshold, probes)) => name in servers && servers[name] == AfterProbes(threshold, probes)
  {
    hide AfterProbe, Check;
    if es != [] {
      HealthIsHistory(g, es[..|es| - 1], name);
      var before := History(es[..|es| - 1], name);
      match es[|es| - 1]
      case Probed(n, result) =>
        if n == name && before.Some? {
          var probes := before.value.1 + [result];
          assert probes[..|probes| - 1] == before.value.1;
        }
      case _ =>
    }
  }

  /** The active server never leaves the group. */
  lemma {:induction false} ActiveStaysMember(s: System, es: seq<Event>)
    requires Member(s.group, s.group.active)
    ensures var g := Run(s, es).group; Member(g, g.active) && g == s.group.(active := g.active)
  {
    hide Check;
    if es != [] {
      ActiveStaysMember(s, es[..|es| - 1]);
      var before := Run(s, es[..|es| - 1]);
      SwapIsJustified(before.group, before.servers);
    }
  }

  /** What the probes say about a server: registered, and its last `threshold` probes all failed. */
  predicate Down(es: seq<Event>, name: string) {
    match History(es, name)
    case None => false
    case Some((threshold, probes)) => LastFailed(probes, if threshold == 0 then 1 else threshold)
  }

  predicate Up(es: seq<Event>, name: string) {
    History(es, name).Some? && !Down(es, name)
  }

  lemma {:induction false} HistoryThreshold(es: seq<Event>, name: string)
    requires forall e <- es :: e.Registered? ==> e.threshold < WRAP
    ensures History(es, name).Some? ==> History(es, name).value.0 < WRAP
  {
    if es != [] {
      assert es[|es| - 1] in es;
      HistoryThreshold(es[..|es| - 1], name);
    }
  }

  lemma FlagsAreHistory(g: Group, es: seq<Event>, name: string)
    requires forall e <- es :: e.Registered? ==> e.threshold < WRAP
    ensures var servers := Run(System(map[], g), es).servers;
      (Flagged(servers, name) <==> Down(es, name)) && (Healthy(servers, name) <==> Up(es, name))
  {
    hide Run, History, AfterProbes, LastFailed;
    HealthIsHistory(g, es, name);
    HistoryThreshold(es, name);
    if History(es, name).Some? {
      FlaggedExactly(History(es, name).value.0, History(es, name).value.1);
    }
  }

  /** In every interleaving of probes, registrations and passes: a pass that changes the active
      server moves to a server whose probes speak for it, and, except for a failback to the primary,
      away from one whose last probes all failed. */
  lemma SwapEvidence(g: Group, es: seq<Event>)
    requires Member(g, g.active) && forall e <- es :: e.Registered? ==> e.threshold < WRAP
    ensures var before := Run(System(map[], g), es).group.active;
      var after := Apply(Run(System(map[], g), es), Pass).group.active;
      after != before ==>
        && Up(es, after)
        && (if Down(es, before) then after in g.standbys else g.autoFailback && after == g.primary)
  {
    hide Run, History, Check, Flagged, Healthy;
    var s := Run(System(map[], g), es);
    ActiveStaysMember(System(map[], g), es);
    SwapIsJustified(s.group, s.servers);
    FlagsAreHistory(g, es, s.group.active);
    FlagsAreHistory(g, es, Check(s.group, s.servers).active);
  }

  /** In every run, the probes decide where a pass moves to. */
  lemma PassExactly(g: Group, es: seq<Event>)
    requires forall e <- es :: e.Registered? ==> e.threshold < WRAP
    ensures var s := Run(System(map[], g), es);
      Decides(s.group, n => Down(es, n), n => Up(es, n), Apply(s, Pass).group.active)
  {
    hide Run, Check, Flagged, Healthy, Down, Up;
    var s := Run(System(map[], g), es);
    forall n: string
      ensures Flagged(s.servers, n) == Down(es, n) && Healthy(s.servers, n) == Up(es, n)
    {
      FlagsAreHistory(g, es, n);
    }
    CheckExactly(s.group, s.servers);
    DecidesSame(s.group, n => Flagged(s.servers, n), n => Healthy(s.servers, n), n => Down(es, n), n => Up(es, n),
                Check(s.group, s.servers).active);
  }

  lemma DecidesSame(g: Group, down: string -> bool, up: string -> bool, down': string -> bool, up': string -> bool, next: string)
    requires Decides(g, down, up, next)
    requires forall n :: down(n) == down'(n)
    requires forall n :: up(n) == up'(n)
    ensures Decides(g, down', up', next)
  {
  }

  /** A pass at this point would move away from the primary: it is down and the first standby is up. */
  predicate WouldLeave(g: Group, es: seq<Event>) {
    Down(es, g.primary) && g.standbys != [] && Up(es, g.standbys[0])
  }

  /** A group that was loaded is still at its primary exactly when no pass so far met a primary that
      was down and a first standby that was up. The other standbys do not come into it. */
  lemma {:induction false} StaysAtPrimaryExactly(g: Group, es: seq<Event>)
    requires g.active == g.primary && forall e <- es :: e.Registered? ==> e.threshold < WRAP
    ensures (forall i :: 0 <= i <= |es| ==> Run(System(map[], g), es[..i]).group == g)
       <==> (forall i :: 0 <= i < |es| && es[i] == Pass ==> !WouldLeave(g, es[..i]))
  {
    hide Down, Up, Check, Run;
    var s := System(map[], g);
    if es == [] {
      FreshRun(s);
      assert forall i :: 0 <= i <= |es| ==> es[..i] == [];
    } else {
      var n := |es| - 1;
      var front := es[..n];
      assert forall i :: 0 <= i <= n ==> front[..i] == es[..i];
      assert front[..n] == es[..n] && es[..n + 1] == es;
      StaysAtPrimaryExactly(g, front);
      RunLast(s, es);
      if Run(s, front).group == g {
        PassLeaves(g, front);
      }
    }
  }

  lemma FreshRun(s: System)
    ensures Run(s, []) == s
  {
  }

  lemma RunLast(s: System, es: seq<Event>)
    requires es != []
    ensures Run(s, es) == Apply(Run(s, es[..|es| - 1]), es[|es| - 1])
  {
  }

  lemma PassLeaves(g: Group, es: seq<Event>)
    requires g.active == g.primary && forall e <- es :: e.Registered? ==> e.threshold < WRAP
    requires Run(System(map[], g), es).group == g
    ensures Apply(Run(System(map[], g), es), Pass).group != g <==> WouldLeave(g, es)
  {
    hide Run, Down, Up;
    FlagsAreHistory(g, es, g.primary);
    if g.standbys != [] {
      FlagsAreHistory(g, es, g.standbys[0]);
    }
  }

  /** A run from a loaded group in which the documented walk would have found a server: the primary
      and the first standby are down, the second is up, and the pass stays where it is. */
  lemma HealthyStandbyPassedOver(primary: string, first: string, second: string, others: seq<string>)
    returns (es: seq<Event>)
    requires primary != first && primary != second && first != second
    ensures var g := Group(primary, [first, second] + others, false, primary);
      && Down(es, primary) && Down(es, first) && Up(es, second)
      && Run(System(map[], g), es + [Pass]).group == g
  {
    hide Run, Down, Up, Swaps, Failed;
    var g := Group(primary, [first, second] + others, false, primary);
    var s, before := System(map[], g), Failed([primary, first]);
    es := before + [Registered(second, 1)];
    FailedRun(g, [primary, first]);
    FailedThresholds([primary, first]);
    assert primary in [primary, first] && first in [primary, first];
    RunSnoc(s, before, Registered(second, 1));
    RunSnoc(s, es, Pass);
    FlagsAreHistory(g, es, primary);
    FlagsAreHistory(g, es, first);
    FlagsAreHistory(g, es, second);
  }

  lemma {:induction false} FailedThresholds(names: seq<string>)
    ensures forall e <- Failed(names) :: e.Registered? ==> e.threshold == 1
  {
    if names != [] {
      FailedThresholds(names[..|names| - 1]);
    }
  }

  /** No name comes back after a different one: equal names stand next to each other. */
  ghost predicate Contiguous(names: seq<string>) {
    forall i, k, j :: 0 <= i < k < j < |names| && names[i] == names[j] ==> names[k] == names[i]
  }

  ghost predicate ProperGroup(g: Group) {
    Member(g, g.active) && g.primary !in g.standbys && Contiguous(g.standbys)
  }

  /** How far down the list the active server is. */
  function Rank(g: Group): (r: nat)
    ensures Member(g, g.active) ==> r <= |g.standbys|
  {
    if g.active == g.primary then 0
    else match Position(g.standbys, g.active) case None => 0 case Some(i) => i + 1
  }

  lemma ContiguousAt(names: seq<string>, i: nat, k: nat, j: nat)
    requires Contiguous(names) && i < |names| && k < |names| && j < |names|
    ensures i < k < j && names[i] == names[j] ==> names[k] == names[i]
  {
  }

  /** A different name further down is first met further down. */
  lemma PositionLater(names: seq<string>, i: nat, j: nat)
    requires Contiguous(names) && i < j < |names| && names[i] != names[j]
    ensures Position(names, names[j]).Some? && Position(names, names[j]).value > i
  {
    hide Contiguous, Position;
    ContiguousAt(names, Position(names, names[j]).value, i, j);
  }

  /** Without failback a swap moves strictly down the list. */
  lemma SwapRaisesRank(g: Group, servers: Registry)
    requires ProperGroup(g) && !g.autoFailback
    ensures var g' := Check(g, servers);
      && ProperGroup(g') && g'.standbys == g.standbys && !g'.autoFailback
      && (if g'.active == g.active then Rank(g') == Rank(g) else Rank(g') > Rank(g))
  {
    var g' := Check(g, servers);
    if g'.active != g.active {
      if g.active != g.primary {
        var at := Position(g.standbys, g.active).value;
        PositionLater(g.standbys, at, FirstHealthy(g.standbys, servers, at + 1).value);
      }
    }
  }

  /** The passes of a run that changed the active server. */
  function Swaps(s: System, es: seq<Event>): nat {
    if es == [] then 0
    else
      var before := Run(s, es[..|es| - 1]);
      Swaps(s, es[..|es| - 1]) + (if Apply(before, es[|es| - 1]).group.active != before.group.active then 1 else 0)
  }

  lemma {:induction false} RankCountsSwaps(s: System, es: seq<Event>)
    requires ProperGroup(s.group) && !s.group.autoFailback
    ensures var g := Run(s, es).group;
      && ProperGroup(g) && g.standbys == s.group.standbys && !g.autoFailback
      && Rank(s.group) + Swaps(s, es) <= Rank(g)
  {
    hide Check, Rank, ProperGroup;
    if es != [] {
      RankCountsSwaps(s, es[..|es| - 1]);
      var before := Run(s, es[..|es| - 1]);
      if es[|es| - 1] == Pass {
        SwapRaisesRank(before.group, before.servers);
      }
    }
  }

  /** So no run, whatever the probes and the registry do, swaps more often than there are standbys. */
  lemma SwapsAreBounded(s: System, es: seq<Event>)
    requires ProperGroup(s.group) && !s.group.autoFailback
    ensures Swaps(s, es) <= |s.group.standbys|
  {
    RankCountsSwaps(s, es);
  }

  // ---------------------------------------------------------------------
  // Exactly which lists bound the swaps
  // ---------------------------------------------------------------------

  lemma RunSnoc(s: System, es: seq<Event>, e: Event)
    ensures Run(s, es + [e]) == Apply(Run(s, es), e)
    ensures Swaps(s, es + [e]) == Swaps(s, es) + (if Apply(Run(s, es), e).group.active != Run(s, es).group.active then 1 else 0)
  {
    assert (es + [e])[..|es|] == es;
  }

  /** With the primary first among its own standbys, or no standbys, a group never leaves it. */
  lemma {:induction false} NeverSwaps(s: System, es: seq<Event>)
    requires var g := s.group; g.active == g.primary && (g.standbys == [] || g.standbys[0] == g.primary)
    ensures Run(s, es).group == s.group && Swaps(s, es) == 0
  {
    if es != [] {
      NeverSwaps(s, es[..|es| - 1]);
    }
  }

  /** Every member is registered; `name` is active and healthy and all others are flagged. */
  ghost predicate Alone(t: System, g: Group, name: string) {
    && t.group == g.(active := name) && Member(g, name)
    && forall m :: Member(g, m) ==>
         m in t.servers && t.servers[m].threshold == 1 && t.servers[m].failCount <= 1
         && t.servers[m].unhealthy == (m != name) && (m == name ==> t.servers[m].failCount == 0)
  }

  /** Every name registered and failed once. */
  function Failed(names: seq<string>): seq<Event> {
    if names == [] then []
    else Failed(names[..|names| - 1]) + [Registered(names[|names| - 1], 1)] + [Probed(names[|names| - 1], None)]
  }

  lemma {:induction false} FailedRun(g: Group, names: seq<string>)
    ensures var t := Run(System(map[], g), Failed(names));
      && t.group == g
      && Swaps(System(map[], g), Failed(names)) == 0
      && forall m <- names :: m in t.servers && t.servers[m] == Health(1, 1, true, 0)
  {
    var s := System(map[], g);
    if names != [] {
      hide Run, Swaps;
      var front, n := names[..|names| - 1], names[|names| - 1];
      FailedRun(g, front);
      var es := Failed(front) + [Registered(n, 1)];
      RunSnoc(s, Failed(front), Registered(n, 1));
      RunSnoc(s, es, Probed(n, None));
      assert forall m <- names :: m in front || m == n;
    }
  }

  /** From the loaded group with nothing registered to the primary alone. */
  lemma Setup(g: Group) returns (es: seq<Event>)
    requires g.active == g.primary
    ensures Alone(Run(System(map[], g), es), g, g.primary)
  {
    hide Run, Swaps, Failed;
    var s := System(map[], g);
    es := Failed(g.standbys) + [Registered(g.primary, 1)];
    FailedRun(g, g.standbys);
    RunSnoc(s, Failed(g.standbys), Registered(g.primary, 1));
  }

  /** From `a` a pass can lead to `b`: it is the first standby, or stands after `a` in the list. */
  ghost predicate Leads(g: Group, a: string, b: string) {
    && a != b && Member(g, a)
    && if a == g.primary then g.standbys != [] && g.standbys[0] == b
       else exists i, j :: 0 <= i < j < |g.standbys| && g.standbys[i] == a && g.standbys[j] == b
  }

  lemma CheckLeads(g: Group, servers: Registry, a: string, b: string)
    requires Leads(g, a, b) && Flagged(servers, a) && Healthy(servers, b)
    requires forall m <- g.standbys :: Healthy(servers, m) ==> m == b
    ensures Check(g.(active := a), servers) == g.(active := b)
  {
    if a != g.primary {
      var i, j :| 0 <= i < j < |g.standbys| && g.standbys[i] == a && g.standbys[j] == b;
      var at := Position(g.standbys, a).value;
      assert forall q :: 0 <= q < at ==> g.standbys[q] in g.standbys[..at];
      assert Healthy(servers, g.standbys[j]);
      var next := FirstHealthy(g.standbys, servers, at + 1);
      assert next.Some? && g.standbys[next.value] in g.standbys;
    }
  }

  /** Two probes and a pass. */
  function Hop(a: string, b: string): seq<Event> {
    [Probed(a, None), Probed(b, Some(1)), Pass]
  }

  lemma HopSwaps(s: System, es: seq<Event>, g: Group, a: string, b: string)
    requires Alone(Run(s, es), g, a) && Leads(g, a, b)
    ensures Alone(Run(s, es + Hop(a, b)), g, b)
    ensures Swaps(s, es + Hop(a, b)) == Swaps(s, es) + 1
  {
    hide Run, Swaps, Check, Leads;
    var t := Run(s, es);
    var e1, e2 := es + [Probed(a, None)], es + [Probed(a, None)] + [Probed(b, Some(1))];
    RunSnoc(s, es, Probed(a, None));
    RunSnoc(s, e1, Probed(b, Some(1)));
    RunSnoc(s, e2, Pass);
    assert es + Hop(a, b) == e2 + [Pass];
    LeadsMember(g, a, b);
    CheckLeads(g, Run(s, e2).servers, a, b);
  }

  lemma LeadsMember(g: Group, a: string, b: string)
    requires Leads(g, a, b)
    ensures a != b && Member(g, a) && Member(g, b)
  {
  }

  /** Two names that lead to each other can be swapped between for ever. */
  lemma Circle(s: System, start: seq<Event>, g: Group, a: string, b: string, n: nat) returns (es: seq<Event>)
    requires Alone(Run(s, start), g, a) && Leads(g, a, b) && Leads(g, b, a)
    ensures Swaps(s, es) >= n
  {
    hide Run, Swaps, Alone, Leads, Hop;
    es := start;
    var count := 0;
    while count < n
      invariant Swaps(s, es) >= count && Alone(Run(s, es), g, a)
    {
      HopSwaps(s, es, g, a, b);
      es := es + Hop(a, b);
      HopSwaps(s, es, g, b, a);
      es := es + Hop(b, a);
      count := count + 1;
    }
  }

  /** The lists for which a loaded group without failback swaps boundedly often. */
  ghost predicate BoundingList(primary: string, standbys: seq<string>) {
    standbys == [] || standbys[0] == primary || (primary !in standbys && Contiguous(standbys))
  }

  /** For every other list there is, for every number, a run of probes that swaps more often. */
  lemma UnboundedSwaps(primary: string, standbys: seq<string>, n: nat) returns (es: seq<Event>)
    requires !BoundingList(primary, standbys)
    ensures Swaps(System(map[], Group(primary, standbys, false, primary)), es) >= n
  {
    hide Run, Swaps, Alone, Hop;
    var g := Group(primary, standbys, false, primary);
    var s := System(map[], g);
    es := Setup(g);
    if primary in standbys {
      var j :| 0 <= j < |standbys| && standbys[j] == primary;
      assert standbys[0] != primary && standbys[j] == primary;
      assert Leads(g, primary, standbys[0]) && Leads(g, standbys[0], primary);
      es := Circle(s, es, g, primary, standbys[0], n);
    } else {
      var i, k, j :| 0 <= i < k < j < |standbys| && standbys[i] == standbys[j] && standbys[k] != standbys[i];
      var a, b := standbys[i], standbys[k];
      assert Leads(g, primary, standbys[0]);
      HopSwaps(s, es, g, primary, standbys[0]);
      es := es + Hop(primary, standbys[0]);
      if a != standbys[0] {
        assert 0 < i;
        assert Leads(g, standbys[0], a);
        HopSwaps(s, es, g, standbys[0], a);
        es := es + Hop(standbys[0], a);
      }
      assert Leads(g, a, b) && Leads(g, b, a);
      es := Circle(s, es, g, a, b, n);
    }
  }

  ghost predicate AtMost(g: Group, most: nat) {
    forall es :: Swaps(System(map[], g), es) <= most
  }

  /** Some number bounds the swaps of every run. */
  ghost predicate Bounded(g: Group) {
    exists most: nat :: AtMost(g, most)
  }

  /** There and back: the primary fails, recovers, and is failed back to. */
  function Return(primary: string, first: string): seq<Event> {
    [Probed(primary, None), Probed(first, Some(1)), Pass, Probed(primary, Some(1)), Pass]
  }

  /** At a healthy primary with the first standby registered. */
  ghost predicate AtPrimary(t: System, g: Group) {
    && t.group == g && g.active == g.primary && g.autoFailback && g.standbys != [] && g.standbys[0] != g.primary
    && g.primary in t.servers && g.standbys[0] in t.servers
    && t.servers[g.primary].threshold == 1 && t.servers[g.primary].failCount == 0 && !t.servers[g.primary].unhealthy
  }

  lemma ReturnSwaps(s: System, es: seq<Event>, g: Group)
    requires AtPrimary(Run(s, es), g)
    ensures var more := es + Return(g.primary, g.standbys[0]);
      AtPrimary(Run(s, more), g) && Swaps(s, more) == Swaps(s, es) + 2
  {
    hide Run, Swaps;
    var p, first := g.primary, g.standbys[0];
    var e1 := es + [Probed(p, None)];
    var e2 := e1 + [Probed(first, Some(1))];
    var e3 := e2 + [Pass];
    var e4 := e3 + [Probed(p, Some(1))];
    RunSnoc(s, es, Probed(p, None));
    RunSnoc(s, e1, Probed(first, Some(1)));
    RunSnoc(s, e2, Pass);
    assert Run(s, e3).group == g.(active := first);
    RunSnoc(s, e3, Probed(p, Some(1)));
    RunSnoc(s, e4, Pass);
    assert es + Return(p, first) == e4 + [Pass];
  }

  /** With failback on, every list whose first standby is not the primary is swapped along without end. */
  lemma UnboundedReturns(primary: string, standbys: seq<string>, n: nat) returns (es: seq<Event>)
    requires standbys != [] && standbys[0] != primary
    ensures Swaps(System(map[], Group(primary, standbys, true, primary)), es) >= n
  {
    var g := Group(primary, standbys, true, primary);
    var s := System(map[], g);
    FreshRun(s);
    RunSnoc(s, [], Registered(primary, 1));
    RunSnoc(s, [] + [Registered(primary, 1)], Registered(standbys[0], 1));
    es := [] + [Registered(primary, 1)] + [Registered(standbys[0], 1)];
    hide Run, Swaps, Return;
    var count := 0;
    while count < n
      invariant AtPrimary(Run(s, es), g) && Swaps(s, es) >= count
    {
      ReturnSwaps(s, es, g);
      es := es + Return(primary, standbys[0]);
      count := count + 1;
    }
  }

  /** A group as it is loaded: its swaps are bounded over all runs exactly when it has no standbys, or
      its primary is the first of them, or, without failback, the primary is not among them and no name
      comes back after a different one. */
  lemma BoundedExactly(primary: string, standbys: seq<string>, autoFailback: bool)
    ensures Bounded(Group(primary, standbys, autoFailback, primary)) <==>
      standbys == [] || standbys[0] == primary || (!autoFailback && BoundingList(primary, standbys))
  {
    hide Swaps, Contiguous;
    var g := Group(primary, standbys, autoFailback, primary);
    var s := System(map[], g);
    if standbys == [] || standbys[0] == primary || (!autoFailback && BoundingList(primary, standbys)) {
      forall es ensures Swaps(s, es) <= |standbys| {
        if standbys == [] || standbys[0] == primary {
          NeverSwaps(s, es);
        } else {
          SwapsAreBounded(s, es);
        }
      }
      assert AtMost(g, |standbys|);
    } else {
      forall most: nat ensures !AtMost(g, most) {
        if autoFailback {
          var es := UnboundedReturns(primary, standbys, most + 1);
        } else {
          var es := UnboundedSwaps(primary, standbys, most + 1);
        }
      }
    }
  }
}
