/** Leader election: the shared lease, what each node makes of it, and both over whole runs. */
module Election {
  import opened Bytes

  type NodeId = nat

  const TTL := 10

  // ---------------------------------------------------------------------
  // What a node makes of the lease's answer
  // ---------------------------------------------------------------------

  datatype Role = Leader | Follower | Standalone

  function MinId(ids: set<NodeId>): (m: NodeId)
    requires ids != {}
    ensures m in ids && forall x <- ids :: m <= x
  {
    HasMin(ids);
    var m :| m in ids && forall x <- ids :: m <= x;
    m
  }

  lemma HasMin(ids: set<NodeId>)
    requires ids != {}
    ensures exists m :: m in ids && forall x <- ids :: m <= x
  {
    var m := Least(ids);
  }

  lemma {:induction false} Least(ids: set<NodeId>) returns (m: NodeId)
    requires ids != {}
    ensures m in ids && forall x <- ids :: m <= x
    decreases |ids|
  {
    m :| m in ids;
    var rest := ids - {m};
    assert forall x <- ids :: x == m || x in rest;
    if rest != {} {
      var n := Least(rest);
      m := if n < m then n else m;
    }
  }

  /** The lease's answer if that node is healthy here, and otherwise the smallest healthy id. */
  function Elect(healthy: set<NodeId>, answer: Option<NodeId>): (leader: NodeId)
    requires healthy != {}
    ensures leader in healthy
    ensures answer.Some? && answer.value in healthy ==> leader == answer.value
  {
    if answer.Some? && answer.value in healthy then answer.value else MinId(healthy)
  }

  /** Without the lease, equal views elect the same node. */
  lemma SameViewSameLeader(healthy: set<NodeId>, m: NodeId)
    requires healthy != {} && m in healthy && forall x <- healthy :: m <= x
    ensures Elect(healthy, None) == m
  {
  }

  /** What a node holds: the leader it knows of and the nodes it knows, with their roles. */
  datatype View = View(leader: Option<NodeId>, roles: map<NodeId, Role>)

  /** The nodes a registry has as leader. */
  function Leaders(roles: map<NodeId, Role>): set<NodeId> {
    set n | n in roles && roles[n] == Leader
  }

  /** The end of a pass: the elected node is written down and every role is rewritten. */
  function Concluded(v: View, elected: NodeId): View {
    View(Some(elected), map n | n in v.roles :: if n == elected then Leader else Follower)
  }

  class Coordinator {
    var roles: map<NodeId, Role>
    var leader: Option<NodeId>

    ghost function State(): View
      reads this
    {
      View(leader, roles)
    }

    constructor ()
      ensures State() == View(None, map[])
    {
      roles, leader := map[], None;
    }

    /** `elect_leader` from the healthy nodes on, `answer` being what the lease branch gave. After a
        pass with a healthy node exactly one node of the registry is leader, and it is healthy. */
    method ElectLeader(healthy: set<NodeId>, answer: Option<NodeId>)
      requires healthy <= roles.Keys
      modifies this
      ensures State() ==
        if healthy == {} then old(State()).(leader := None) else Concluded(old(State()), Elect(healthy, answer))
      ensures healthy != {} ==> leader.Some? && leader.value in healthy && Leaders(roles) == {leader.value}
      ensures healthy != {} ==> roles.Keys == old(roles).Keys && forall n <- roles :: n == leader.value || roles[n] == Follower
    {
      if healthy == {} {
        leader := None;
        return;
      }
      var elected := Elect(healthy, answer);
      leader := Some(elected);
      var todo := roles.Keys;
      while todo != {}
        invariant todo <= roles.Keys == old(roles).Keys
        invariant leader == Some(elected)
        invariant forall n <- roles :: n !in todo ==> roles[n] == if n == elected then Leader else Follower
        decreases |todo|
      {
        var n :| n in todo;
        roles := roles[n := if n == elected then Leader else Follower];
        todo := todo - {n};
      }
    }
  }

  // ---------------------------------------------------------------------
  // The lease, under any interleaving of the nodes' passes
  // ---------------------------------------------------------------------

  /** The key in the store: it is there until `expires`. */
  datatype Lease = Lease(owner: NodeId, expires: nat)

  /** Where a node is in its pass: not in one, holding the healthy nodes it began with, holding the
      GET's answer too, or past the lease branch. */
  datatype Phase =
    | Idle
    | Ready(healthy: set<NodeId>)
    | Asked(healthy: set<NodeId>, current: Option<NodeId>)
    | Decided(healthy: set<NodeId>, answer: Option<NodeId>)

  /** A stretch of time during which one node held the lease without a gap. */
  datatype Tenure = Tenure(owner: NodeId, start: nat, end: nat)

  /** The store's clock and key, the nodes' phases and views, and, as a record of the run, the tenures
      so far. */
  datatype World = World(
    now: nat, lease: Option<Lease>, phases: map<NodeId, Phase>, views: map<NodeId, View>, tenures: seq<Tenure>)
  {
    /** The key exists: it has been set and has not expired. */
    predicate Live() {
      lease.Some? && now < lease.value.expires
    }

    function Current(): Option<NodeId> {
      if Live() then Some(lease.value.owner) else None
    }

    function PhaseOf(n: NodeId): Phase {
      if n in phases then phases[n] else Idle
    }

    function ViewOf(n: NodeId): View {
      if n in views then views[n] else View(None, map[])
    }

    function In(n: NodeId, phase: Phase): World {
      this.(phases := phases[n := phase])
    }
  }

  /** A command may be carried out although its reply is lost; the node then sees a failure. */
  datatype Event =
    | Wait(seconds: nat)
    | Discover(node: NodeId, roles: map<NodeId, Role>)
    | Begin(node: NodeId, healthy: set<NodeId>)
    | NoStore(node: NodeId)
    | Get(node: NodeId, delivered: bool)
    | Renew(node: NodeId, delivered: bool)
    | SetNx(node: NodeId, delivered: bool)
    | Finish(node: NodeId)

  /** The commands follow the order of the pass: the healthy nodes, then GET unless the store cannot
      be reached, then renew if the answer was the node itself, otherwise SET NX, then the election.
      The registry may change at any time. */
  predicate Enabled(w: World, e: Event) {
    match e
    case Wait(_) => true
    case Discover(_, _) => true
    case Begin(n, healthy) => w.PhaseOf(n) == Idle && healthy <= w.ViewOf(n).roles.Keys
    case NoStore(n) => w.PhaseOf(n).Ready?
    case Get(n, _) => w.PhaseOf(n).Ready?
    case Renew(n, _) => w.PhaseOf(n).Asked? && w.PhaseOf(n).current == Some(n)
    case SetNx(n, _) => w.PhaseOf(n).Asked? && w.PhaseOf(n).current != Some(n)
    case Finish(n) => w.PhaseOf(n).Decided? && w.PhaseOf(n).healthy != {}
  }

  /** Give the lease to `n` for another ten seconds, starting a tenure or extending the last one. */
  function Grant(w: World, n: NodeId): World
    requires w.Live() ==> w.lease.value.owner == n
  {
    var until := w.now + TTL;
    var tenures :=
      if w.Live() && w.tenures != [] then w.tenures[|w.tenures| - 1 := w.tenures[|w.tenures| - 1].(end := until)]
      else w.tenures + [Tenure(n, w.now, until)];
    w.(lease := Some(Lease(n, until)), tenures := tenures)
  }

  function Apply(w: World, e: Event): World
    requires Enabled(w, e)
  {
    match e
    case Wait(seconds) => w.(now := w.now + seconds)
    case Discover(n, roles) => w.(views := w.views[n := w.ViewOf(n).(roles := roles)])
    case Begin(n, healthy) =>
      if healthy == {} then w.(views := w.views[n := w.ViewOf(n).(leader := None)]) else w.In(n, Ready(healthy))
    case NoStore(n) => w.In(n, Decided(w.PhaseOf(n).healthy, None))
    case Get(n, delivered) => w.In(n, Asked(w.PhaseOf(n).healthy, if delivered then w.Current() else None))
    case Renew(n, delivered) =>
      var renewed := w.Current() == Some(n);
      var w' := if renewed then Grant(w, n) else w;
      w'.In(n, Decided(w.PhaseOf(n).healthy, if renewed && delivered then Some(n) else None))
    case SetNx(n, delivered) =>
      var acquired := !w.Live();
      var w' := if acquired then Grant(w, n) else w;
      w'.In(n, Decided(w.PhaseOf(n).healthy, if acquired && delivered then Some(n) else w.PhaseOf(n).current))
    case Finish(n) =>
      var elected := Elect(w.PhaseOf(n).healthy, w.PhaseOf(n).answer);
      w.(views := w.views[n := Concluded(w.ViewOf(n), elected)]).In(n, Idle)
  }

  /** The record of the tenures matches the key, and tenures follow one another in time. */
  predicate Consistent(w: World) {
    && (w.lease.Some? <==> w.tenures != [])
    && (w.lease.Some? ==>
          var last := w.tenures[|w.tenures| - 1];
          last.owner == w.lease.value.owner && last.end == w.lease.value.expires && last.start <= w.now && last.end <= w.now + TTL)
    && (forall i, j :: 0 <= i < j < |w.tenures| ==> w.tenures[i].end <= w.tenures[j].start)
    && (forall i :: 0 <= i < |w.tenures| ==> w.tenures[i].start < w.tenures[i].end)
  }

  lemma ApplyConsistent(w: World, e: Event)
    requires Consistent(w) && Enabled(w, e)
    ensures Consistent(Apply(w, e))
  {
    if w.tenures != [] && !w.Live() {
      var last := w.tenures[|w.tenures| - 1];
      assert forall i :: 0 <= i < |w.tenures| ==> w.tenures[i].end <= last.end <= w.now;
    }
  }

  /** A live lease keeps its owner through every command of every node; it ends by expiring. */
  lemma LiveLeaseKeepsOwner(w: World, e: Event)
    requires Consistent(w) && Enabled(w, e) && w.Live()
    ensures Apply(w, e).lease.Some? && Apply(w, e).lease.value.owner == w.lease.value.owner
    ensures Apply(w, e).lease.value.expires >= w.lease.value.expires
  {
  }

  /** This step's lease branch gives the node its own id. */
  predicate GetsOwnId(w: World, e: Event, n: NodeId)
    requires Enabled(w, e)
  {
    (e == Renew(n, true) || e == SetNx(n, true)) && Apply(w, e).PhaseOf(n).answer == Some(n)
  }

  /** Then the lease is that node's from now for the whole of its term. */
  lemma OwnAnswerMeansOwner(w: World, e: Event, n: NodeId)
    requires Consistent(w) && Enabled(w, e) && GetsOwnId(w, e, n)
    ensures Apply(w, e).Current() == Some(n) && Apply(w, e).lease == Some(Lease(n, w.now + TTL))
  {
  }

  /** There is no other way to decide for oneself. */
  lemma OwnAnswerOnlySo(w: World, e: Event, n: NodeId)
    requires Enabled(w, e)
    requires var before, after := w.PhaseOf(n), Apply(w, e).PhaseOf(n);
      after != before && after.Decided? && after.answer == Some(n)
    ensures GetsOwnId(w, e, n)
  {
  }

  // ---------------------------------------------------------------------
  // Runs
  // ---------------------------------------------------------------------

  ghost predicate IsRun(ws: seq<World>, es: seq<Event>) {
    && |ws| == |es| + 1
    && ws[0].lease == None && ws[0].tenures == [] && ws[0].phases == map[]
    && forall i :: 0 <= i < |es| ==> Enabled(ws[i], es[i]) && ws[i + 1] == Apply(ws[i], es[i])
  }

  lemma RunStep(ws: seq<World>, es: seq<Event>, i: nat)
    requires IsRun(ws, es) && i < |es|
    ensures Enabled(ws[i], es[i]) && ws[i + 1] == Apply(ws[i], es[i])
  {
  }

  lemma {:induction false} RunConsistent(ws: seq<World>, es: seq<Event>, i: nat)
    requires IsRun(ws, es) && i <= |es|
    ensures Consistent(ws[i])
  {
    if i > 0 {
      RunConsistent(ws, es, i - 1);
      ApplyConsistent(ws[i - 1], es[i - 1]);
      RunStep(ws, es, i - 1);
    }
  }

  /** At no time do two tenures overlap, in any run of any number of nodes. */
  lemma TenuresNeverOverlap(ws: seq<World>, es: seq<Event>, a: Tenure, b: Tenure, time: nat)
    requires IsRun(ws, es)
    requires a in ws[|es|].tenures && b in ws[|es|].tenures
    requires a.start <= time < a.end && b.start <= time < b.end
    ensures a == b
  {
    RunConsistent(ws, es, |es|);
  }

  /** A tenure once begun is never taken back: it stays recorded, with its owner and its start. */
  lemma TenuresGrow(w: World, e: Event)
    requires Consistent(w) && Enabled(w, e)
    ensures |w.tenures| <= |Apply(w, e).tenures|
    ensures forall i :: 0 <= i < |w.tenures| ==>
      var t, t' := w.tenures[i], Apply(w, e).tenures[i];
      t'.owner == t.owner && t'.start == t.start && t'.end >= t.end
  {
  }

  /** Whoever holds the lease at a point of a run holds it inside a tenure of its own. */
  lemma HolderHasTenure(w: World)
    requires Consistent(w) && w.Live()
    ensures exists t <- w.tenures :: t.owner == w.lease.value.owner && t.start <= w.now < t.end
  {
    assert w.tenures[|w.tenures| - 1] in w.tenures;
  }

  /** Until its term is over a lease stays with its owner, whatever happens. */
  lemma {:induction false} LeaseLasts(ws: seq<World>, es: seq<Event>, i: nat, j: nat)
    requires IsRun(ws, es) && i <= j <= |es| && ws[i].Live() && ws[j].now < ws[i].lease.value.expires
    ensures ws[j].Live() && ws[j].lease.value.owner == ws[i].lease.value.owner
    ensures ws[j].lease.value.expires >= ws[i].lease.value.expires
  {
    hide Apply, Consistent, Enabled;
    if i < j {
      RunStep(ws, es, j - 1);
      TimeGoesOn(ws[j - 1], es[j - 1]);
      LeaseLasts(ws, es, i, j - 1);
      RunConsistent(ws, es, j - 1);
      LiveLeaseKeepsOwner(ws[j - 1], es[j - 1]);
    }
  }

  lemma TimeGoesOn(w: World, e: Event)
    requires Enabled(w, e)
    ensures Apply(w, e).now >= w.now
  {
  }

  /** When two nodes are each given their own id by the lease, a whole term lies between. */
  lemma OwnersAreApart(ws: seq<World>, es: seq<Event>, i: nat, j: nat, n: NodeId, m: NodeId)
    requires IsRun(ws, es) && i < j < |es| && n != m
    requires Enabled(ws[i], es[i]) && GetsOwnId(ws[i], es[i], n)
    requires Enabled(ws[j], es[j]) && GetsOwnId(ws[j], es[j], m)
    ensures ws[j].now >= ws[i].now + TTL
  {
    hide Apply, Consistent, Enabled;
    RunStep(ws, es, i);
    RunStep(ws, es, j);
    RunConsistent(ws, es, i);
    RunConsistent(ws, es, j);
    OwnAnswerMeansOwner(ws[i], es[i], n);
    OwnAnswerMeansOwner(ws[j], es[j], m);
    if ws[j].now < ws[i].now + TTL {
      LeaseLasts(ws, es, i + 1, j);
      LiveLeaseKeepsOwner(ws[j], es[j]);
      assert false;
    }
  }

  /** In the pass that `n` is in at `i`, the lease was held by `c` at some point. */
  ghost predicate WasOwner(ws: seq<World>, i: nat, n: NodeId, c: NodeId) {
    exists k :: 0 <= k <= i < |ws| && ws[k].Current() == Some(c) && forall q :: k <= q <= i ==> ws[q].PhaseOf(n) != Idle
  }

  function Said(p: Phase): Option<NodeId> {
    match p
    case Asked(_, current) => current
    case Decided(_, answer) => answer
    case _ => None
  }

  /** An answer a node carries through its pass was true at some point of that pass. */
  lemma {:induction false} AnswersWereTrue(ws: seq<World>, es: seq<Event>, i: nat, n: NodeId)
    requires IsRun(ws, es) && i <= |es| && Said(ws[i].PhaseOf(n)).Some?
    ensures WasOwner(ws, i, n, Said(ws[i].PhaseOf(n)).value)
  {
    hide Consistent;
    if i > 0 {
      RunStep(ws, es, i - 1);
      var w, w' := ws[i - 1], ws[i];
      var c := Said(w'.PhaseOf(n)).value;
      if Said(w.PhaseOf(n)) == Some(c) {
        AnswersWereTrue(ws, es, i - 1, n);
        var k :| 0 <= k <= i - 1 < |ws| && ws[k].Current() == Some(c)
          && forall q :: k <= q <= i - 1 ==> ws[q].PhaseOf(n) != Idle;
        assert forall q :: k <= q <= i ==> ws[q].PhaseOf(n) != Idle;
      } else if w.Current() == Some(c) {
        assert forall q :: i - 1 <= q <= i ==> ws[q].PhaseOf(n) != Idle;
      } else {
        RunConsistent(ws, es, i - 1);
        assert w'.Current() == Some(c);
      }
    }
  }

  /** In every run a pass that ends leaves the node with a leader that was healthy when the pass began:
      one that held the lease at some point of that pass, or else the smallest healthy id. Of the nodes it then
      knows, that one is leader and no other. */
  lemma PassEndsWell(ws: seq<World>, es: seq<Event>, i: nat, n: NodeId)
    requires IsRun(ws, es) && i < |es| && es[i] == Finish(n)
    ensures var healthy, view := ws[i].PhaseOf(n).healthy, ws[i + 1].ViewOf(n);
      && healthy != {} && view.leader.Some? && view.leader.value in healthy
      && (WasOwner(ws, i, n, view.leader.value) || view.leader.value == MinId(healthy))
      && Leaders(view.roles) == {view.leader.value} * ws[i].ViewOf(n).roles.Keys
      && view.roles.Keys == ws[i].ViewOf(n).roles.Keys
      && forall m <- view.roles :: m == view.leader.value || view.roles[m] == Follower
  {
    RunStep(ws, es, i);
    if ws[i].PhaseOf(n).answer.Some? {
      AnswersWereTrue(ws, es, i, n);
    }
  }

  // ---------------------------------------------------------------------
  // What a pass elects, from what the store held at its two commands
  // ---------------------------------------------------------------------

  /** The node whose command an event is. */
  function Actor(e: Event): Option<NodeId> {
    match e
    case Wait(_) => None
    case Discover(_, _) => None
    case Begin(n, _) => Some(n)
    case NoStore(n) => Some(n)
    case Get(n, _) => Some(n)
    case Renew(n, _) => Some(n)
    case SetNx(n, _) => Some(n)
    case Finish(n) => Some(n)
  }

  /** Node `n` does nothing of its own between two points of a run. */
  ghost predicate Away(es: seq<Event>, from: nat, to: nat, n: NodeId) {
    forall k :: from <= k < to && k < |es| ==> Actor(es[k]) != Some(n)
  }

  lemma {:induction false} AwayKeepsPhase(ws: seq<World>, es: seq<Event>, from: nat, to: nat, n: NodeId)
    requires IsRun(ws, es) && from <= to <= |es| && Away(es, from, to, n)
    ensures ws[to].PhaseOf(n) == ws[from].PhaseOf(n)
  {
    hide IsRun, Elect;
    if from < to {
      RunLength(ws, es);
      RunStep(ws, es, to - 1);
      AwayKeepsPhase(ws, es, from, to - 1, n);
    }
  }

  lemma RunLength(ws: seq<World>, es: seq<Event>)
    requires IsRun(ws, es)
    ensures |ws| == |es| + 1
  {
  }

  /** A whole pass of `n` that reaches the store: it begins at `b`, asks at `g`, renews or tries to
      acquire at `s` and ends at `f`, whatever the other nodes do meanwhile. */
  ghost predicate WholePass(ws: seq<World>, es: seq<Event>, b: nat, g: nat, s: nat, f: nat, n: NodeId) {
    && IsRun(ws, es) && b < g < s < f < |es|
    && es[b].Begin? && es[b].node == n && es[b].healthy != {}
    && es[g].Get? && es[g].node == n
    && (es[s].Renew? || es[s].SetNx?) && es[s].node == n
    && es[f] == Finish(n)
    && Away(es, b + 1, g, n) && Away(es, g + 1, s, n) && Away(es, s + 1, f, n)
  }

  /** What the node heard from the GET. */
  function Heard(ws: seq<World>, es: seq<Event>, g: nat): Option<NodeId>
    requires g < |es| && g < |ws| && es[g].Get?
  {
    if es[g].delivered then ws[g].Current() else None
  }

  /** The second command changes the key: a node that heard its own id still holds it, any other finds it gone. */
  predicate Takes(w: World, heard: Option<NodeId>, n: NodeId) {
    w.Current() == if heard == Some(n) then Some(n) else None
  }

  lemma PassCommands(ws: seq<World>, es: seq<Event>, b: nat, g: nat, s: nat, f: nat, n: NodeId)
    requires WholePass(ws, es, b, g, s, f, n)
    ensures |ws| == |es| + 1
    ensures ws[g].PhaseOf(n) == Ready(es[b].healthy)
    ensures ws[s].PhaseOf(n) == Asked(es[b].healthy, Heard(ws, es, g))
    ensures es[s].Renew? <==> Heard(ws, es, g) == Some(n)
  {
    hide IsRun, Elect, Grant;
    RunLength(ws, es);
    RunStep(ws, es, b);
    AwayKeepsPhase(ws, es, b + 1, g, n);
    RunStep(ws, es, g);
    AwayKeepsPhase(ws, es, g + 1, s, n);
    RunStep(ws, es, s);
  }

  /** The lease after the second command: the node's for ten seconds if it takes it, whether or not the
      reply arrives, and otherwise as it was. */
  lemma PassLease(ws: seq<World>, es: seq<Event>, b: nat, g: nat, s: nat, f: nat, n: NodeId)
    requires WholePass(ws, es, b, g, s, f, n)
    ensures |ws| == |es| + 1
    ensures ws[s + 1].lease ==
      if Takes(ws[s], Heard(ws, es, g), n) then Some(Lease(n, ws[s].now + 10)) else ws[s].lease
  {
    hide IsRun, Elect;
    PassCommands(ws, es, b, g, s, f, n);
    RunStep(ws, es, s);
  }

  /** The leader the pass ends with: the node itself if it took the lease and heard so; otherwise the
      holder it heard of, unless that was itself; and the smallest healthy id if that gives no healthy node. */
  lemma PassExactly(ws: seq<World>, es: seq<Event>, b: nat, g: nat, s: nat, f: nat, n: NodeId)
    requires WholePass(ws, es, b, g, s, f, n)
    ensures |ws| == |es| + 1
    ensures var (healthy, heard) := (es[b].healthy, Heard(ws, es, g));
      var wanted :=
        if Takes(ws[s], heard, n) && es[s].delivered then Some(n)
        else if heard == Some(n) then None
        else heard;
      ws[f + 1].ViewOf(n).leader ==
        Some(if wanted.Some? && wanted.value in healthy then wanted.value else MinId(healthy))
  {
    hide IsRun;
    PassCommands(ws, es, b, g, s, f, n);
    RunStep(ws, es, s);
    AwayKeepsPhase(ws, es, s + 1, f, n);
    RunStep(ws, es, f);
  }

  /** A pass without a healthy node ends at once, with no leader and nothing else changed. */
  lemma NobodyHealthy(w: World, n: NodeId)
    requires w.PhaseOf(n) == Idle
    ensures var w' := Apply(w, Begin(n, {}));
      && w'.ViewOf(n) == View(None, w.ViewOf(n).roles)
      && w'.PhaseOf(n) == Idle && w'.lease == w.lease && w'.now == w.now
      && forall m :: m != n ==> w'.ViewOf(m) == w.ViewOf(m)
  {
  }

  // ---------------------------------------------------------------------
  // When nodes agree, and when they do not
  // ---------------------------------------------------------------------

  /** Node `n` asks at step `i` and is answered, and finishes that pass at step `j`; all the while `c`
      holds the lease, and no answer to a renewal of `n` is lost. */
  ghost predicate SteadyPass(ws: seq<World>, es: seq<Event>, i: nat, j: nat, n: NodeId, c: NodeId) {
    && IsRun(ws, es) && i < j < |es|
    && es[i] == Get(n, true) && es[j] == Finish(n)
    && (forall k :: i < k < j ==> es[k] != Finish(n) && es[k] != Renew(n, false))
    && (forall k :: i <= k <= j ==> ws[k].Current() == Some(c))
  }

  /** Inside such a pass the node carries the holder's id. */
  lemma {:induction false} SteadyPhase(ws: seq<World>, es: seq<Event>, i: nat, j: nat, n: NodeId, c: NodeId, k: nat)
    requires SteadyPass(ws, es, i, j, n, c) && i < k <= j
    ensures var (h, phase) := (ws[i].PhaseOf(n).healthy, ws[k].PhaseOf(n));
      ws[i].PhaseOf(n).Ready? && (phase == Asked(h, Some(c)) || phase == Decided(h, Some(c)))
  {
    RunStep(ws, es, i);
    RunStep(ws, es, k - 1);
    if k > i + 1 {
      SteadyPhase(ws, es, i, j, n, c, k - 1);
    }
  }

  /** The pass then ends with the holder as leader if the node had it among the healthy, and with the
      smallest healthy id otherwise. */
  lemma SteadyPassElects(ws: seq<World>, es: seq<Event>, i: nat, j: nat, n: NodeId, c: NodeId)
    requires SteadyPass(ws, es, i, j, n, c)
    ensures ws[i].PhaseOf(n).Ready?
    ensures var healthy := ws[i].PhaseOf(n).healthy;
      && healthy != {}
      && ws[j + 1].ViewOf(n).leader == Some(if c in healthy then c else MinId(healthy))
  {
    SteadyPhase(ws, es, i, j, n, c, j);
    RunStep(ws, es, j);
  }

  /** So two such passes, of any two nodes at any two times under one holder, that began with equal
      healthy nodes end with equal leaders. */
  lemma SteadyPassesAgree(ws: seq<World>, es: seq<Event>, i: nat, j: nat, n: NodeId, i': nat, j': nat, n': NodeId, c: NodeId)
    requires SteadyPass(ws, es, i, j, n, c) && SteadyPass(ws, es, i', j', n', c)
    ensures ws[i].PhaseOf(n).Ready? && ws[i'].PhaseOf(n').Ready?
    ensures ws[i].PhaseOf(n).healthy == ws[i'].PhaseOf(n').healthy ==>
      ws[j + 1].ViewOf(n).leader == ws[j' + 1].ViewOf(n').leader
  {
    SteadyPassElects(ws, es, i, j, n, c);
    SteadyPassElects(ws, es, i', j', n', c);
  }

  /** A pass that finds no lease and acquires it. */
  lemma Acquires(w: World, n: NodeId, healthy: set<NodeId>) returns (ws: seq<World>)
    requires w.PhaseOf(n) == Idle && n in healthy && healthy <= w.ViewOf(n).roles.Keys && w.lease == None
    ensures |ws| == 5 && ws[0] == w
    ensures var es := [Begin(n, healthy), Get(n, true), SetNx(n, true), Finish(n)];
      forall i :: 0 <= i < 4 ==> Enabled(ws[i], es[i]) && ws[i + 1] == Apply(ws[i], es[i])
    ensures ws[4].ViewOf(n).leader == Some(n) && ws[4].Current() == Some(n)
    ensures forall m :: m != n ==> ws[4].PhaseOf(m) == w.PhaseOf(m) && ws[4].ViewOf(m) == w.ViewOf(m)
  {
    var w1 := Apply(w, Begin(n, healthy));
    var w2 := Apply(w1, Get(n, true));
    var w3 := Apply(w2, SetNx(n, true));
    assert w3.PhaseOf(n) == Decided(healthy, Some(n)) && w3.Current() == Some(n);
    ws := [w, w1, w2, w3, Apply(w3, Finish(n))];
  }

  /** A pass that does not reach the store. */
  lemma GoesWithout(w: World, m: NodeId, healthy: set<NodeId>) returns (ws: seq<World>)
    requires w.PhaseOf(m) == Idle && healthy != {} && healthy <= w.ViewOf(m).roles.Keys
    ensures |ws| == 4 && ws[0] == w
    ensures var es := [Begin(m, healthy), NoStore(m), Finish(m)];
      forall i :: 0 <= i < 3 ==> Enabled(ws[i], es[i]) && ws[i + 1] == Apply(ws[i], es[i])
    ensures ws[3].ViewOf(m).leader == Some(MinId(healthy)) && ws[3].Current() == w.Current()
    ensures forall n :: n != m ==> ws[3].ViewOf(n) == w.ViewOf(n)
  {
    var w1 := Apply(w, Begin(m, healthy));
    var w2 := Apply(w1, NoStore(m));
    assert w2.PhaseOf(m) == Decided(healthy, None);
    ws := [w, w1, w2, Apply(w2, Finish(m))];
  }

  /** A run after which two nodes that see the same healthy nodes each take themselves for the leader:
      one holds the lease, the other could not reach the store. */
  lemma TwoLeaders(m: NodeId, n: NodeId) returns (ws: seq<World>, es: seq<Event>)
    requires m < n
    ensures IsRun(ws, es)
    ensures var w := ws[|es|];
      w.ViewOf(n).leader == Some(n) && w.ViewOf(m).leader == Some(m) && w.Current() == Some(n)
  {
    hide Apply, Enabled;
    var healthy := {m, n};
    var view := View(None, map[m := Standalone, n := Standalone]);
    var w := World(0, None, map[], map[m := view, n := view], []);
    var first := Acquires(w, n, healthy);
    var second := GoesWithout(first[4], m, healthy);
    var es1, es2 := [Begin(n, healthy), Get(n, true), SetNx(n, true), Finish(n)], [Begin(m, healthy), NoStore(m), Finish(m)];
    ws, es := first + second[1..], es1 + es2;
    forall i | 0 <= i < |es| ensures Enabled(ws[i], es[i]) && ws[i + 1] == Apply(ws[i], es[i]) {
      if i < 4 {
        assert ws[i] == first[i] && ws[i + 1] == first[i + 1] && es[i] == es1[i];
      } else {
        assert ws[i] == second[i - 4] && ws[i + 1] == second[i - 4 + 1] && es[i] == es2[i - 4];
      }
    }
    SmallerOfTwo(m, n);
  }

  lemma SmallerOfTwo(m: NodeId, n: NodeId)
    requires m < n
    ensures MinId({m, n}) == m
  {
    var s := {m, n};
    assert m in s;
  }
}
