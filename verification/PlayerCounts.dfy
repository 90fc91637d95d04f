/** Player counts of the backends against the sessions that are on them. */
module PlayerCounts {
  import opened Bytes

  /** The counters are 64-bit and wrap around. */
  const WRAP := 0x1_0000_0000_0000_0000

  type Count = n: nat | n < WRAP

  type Uuid = nat

  type Sessions = map<Uuid, Option<string>>

  /** The sessions with the server each is on, and the registered servers with their counters. */
  datatype Proxy = Proxy(sessions: Sessions, counts: map<string, Count>)

  /** The sessions on a server. */
  function On(sessions: Sessions, name: string): set<Uuid> {
    set u | u in sessions && sessions[u] == Some(name)
  }

  /** A registered server's counter is the number of sessions on it. */
  predicate Right(s: Proxy, name: string) {
    name in s.counts && s.counts[name] == |On(s.sessions, name)|
  }

  predicate Consistent(s: Proxy) {
    forall name :: name in s.counts ==> Right(s, name)
  }

  function Wrapped(n: int): Count {
    n % WRAP
  }

  function Shift(counts: map<string, Count>, name: string, delta: int): map<string, Count> {
    if name in counts then counts[name := Wrapped(counts[name] + delta)] else counts
  }

  // ---------------------------------------------------------------------
  // The commands
  // ---------------------------------------------------------------------

  datatype Command =
    | Register(name: string, addressParses: bool)
    | Deregister(name: string, fallback: string)
    | Transfer(player: Uuid, server: string)

  /** A session leaves the server it is on, if that is registered, and joins another, likewise. */
  function Move(s: Proxy, u: Uuid, to: string): Proxy
    requires u in s.sessions
  {
    var left := if s.sessions[u].Some? then Shift(s.counts, s.sessions[u].value, -1) else s.counts;
    Proxy(s.sessions[u := Some(to)], Shift(left, to, 1))
  }

  function MovedAll(sessions: Sessions, from: string, to: string): Sessions {
    map u | u in sessions :: if sessions[u] == Some(from) then Some(to) else sessions[u]
  }

  function Evacuated(s: Proxy, from: string, to: string): Proxy {
    var k := |On(s.sessions, from)|;
    Proxy(MovedAll(s.sessions, from, to), Shift(Shift(s.counts, from, -k), to, k))
  }

  function Apply(s: Proxy, c: Command): Proxy {
    match c
    case Register(name, addressParses) => if addressParses then s.(counts := s.counts[name := 0]) else s
    case Transfer(u, server) => if u in s.sessions then Move(s, u, server) else s
    case Deregister(name, fallback) =>
      if name in s.counts then
        var e := Evacuated(s, name, fallback);
        e.(counts := e.counts - {name})
      else s
  }

  function After(s: Proxy, commands: seq<Command>): Proxy {
    if commands == [] then s
    else Apply(After(s, commands[..|commands| - 1]), commands[|commands| - 1])
  }

  // ---------------------------------------------------------------------
  // Counting
  // ---------------------------------------------------------------------

  lemma {:induction false} SubsetSize(a: set<Uuid>, b: set<Uuid>)
    requires a <= b
    ensures |a| <= |b|
  {
    if a != {} {
      var x :| x in a;
      SubsetSize(a - {x}, b - {x});
    }
  }

  lemma OnBound(sessions: Sessions, name: string)
    ensures |On(sessions, name)| <= |sessions|
  {
    SubsetSize(On(sessions, name), sessions.Keys);
  }

  lemma OnAfterMove(sessions: Sessions, u: Uuid, to: string, name: string)
    requires u in sessions
    ensures |On(sessions[u := Some(to)], name)| == |On(sessions, name)|
      - (if sessions[u] == Some(name) then 1 else 0) + (if name == to then 1 else 0)
  {
    var before, after := On(sessions, name), On(sessions[u := Some(to)], name);
    assert u in before <==> sessions[u] == Some(name);
    assert after == if name == to then before + {u} else before - {u};
  }

  lemma OnMoved(sessions: Sessions, from: string, to: string, name: string)
    requires from != to
    ensures name == to ==> On(MovedAll(sessions, from, to), name) == On(sessions, name) + On(sessions, from)
    ensures name == from ==> On(MovedAll(sessions, from, to), name) == {}
    ensures name != from && name != to ==> On(MovedAll(sessions, from, to), name) == On(sessions, name)
  {
  }

  lemma OnDisjoint(sessions: Sessions, a: string, b: string)
    requires a != b
    ensures |On(sessions, a) + On(sessions, b)| == |On(sessions, a)| + |On(sessions, b)|
  {
    assert On(sessions, a) !! On(sessions, b);
  }

  lemma OnAfterEvacuation(sessions: Sessions, from: string, to: string, name: string)
    ensures |On(MovedAll(sessions, from, to), name)| == |On(sessions, name)|
      + (if name == to then |On(sessions, from)| else 0) - (if name == from then |On(sessions, from)| else 0)
  {
    if from == to {
      assert MovedAll(sessions, from, to) == sessions;
    } else {
      hide On, MovedAll;
      OnMoved(sessions, from, to, name);
      OnDisjoint(sessions, to, from);
    }
  }

  // ---------------------------------------------------------------------
  // Drift
  // ---------------------------------------------------------------------

  /** How far a counter is from the number of sessions, modulo the counter's width. */
  function Drift(s: Proxy, name: string): Count
    requires name in s.counts
  {
    Wrapped(s.counts[name] - |On(s.sessions, name)|)
  }

  lemma WrappedOf(n: Count)
    ensures Wrapped(n) == n
  {
    UniqueRemainder(n, WRAP, 0, n);
  }

  lemma WrappedSum(n: int, d: int)
    ensures Wrapped(Wrapped(n) + d) == Wrapped(n + d)
  {
    var q := (Wrapped(n) + d) / WRAP;
    UniqueRemainder(n + d, WRAP, n / WRAP + q, Wrapped(Wrapped(n) + d));
  }

  lemma ShiftTwice(counts: map<string, Count>, name: string, d: int, e: int)
    ensures Shift(Shift(counts, name, d), name, e) == Shift(counts, name, d + e)
  {
    hide Wrapped;
    if name in counts {
      WrappedSum(counts[name] + d, e);
    }
  }

  lemma ShiftNothing(counts: map<string, Count>, name: string)
    ensures Shift(counts, name, 0) == counts
  {
    hide Wrapped;
    if name in counts {
      WrappedOf(counts[name]);
    }
  }

  /** A counter shifted by what the number of sessions changed by drifts no further. */
  lemma ShiftKeepsDrift(s: Proxy, s': Proxy, name: string, d: int)
    requires name in s.counts && name in s'.counts
    requires s'.counts[name] == Wrapped(s.counts[name] + d)
    requires |On(s'.sessions, name)| == |On(s.sessions, name)| + d
    ensures Drift(s', name) == Drift(s, name)
  {
    hide Wrapped;
    WrappedSum(s.counts[name] + d, -|On(s'.sessions, name)|);
  }

  lemma MoveKeepsDrift(s: Proxy, u: Uuid, to: string, name: string)
    requires u in s.sessions && name in s.counts
    ensures name in Move(s, u, to).counts && Drift(Move(s, u, to), name) == Drift(s, name)
  {
    hide Drift, Wrapped, On;
    OnAfterMove(s.sessions, u, to, name);
    var from := s.sessions[u];
    WrappedOf(s.counts[name]);
    if from == Some(to) {
      ShiftTwice(s.counts, to, -1, 1);
      ShiftNothing(s.counts, to);
    }
    var d: int := (if name == to then 1 else 0) - (if from == Some(name) then 1 else 0);
    assert Move(s, u, to).counts[name] == Wrapped(s.counts[name] + d);
    ShiftKeepsDrift(s, Move(s, u, to), name, d);
  }

  lemma EvacuationKeepsDrift(s: Proxy, from: string, to: string, name: string)
    requires name in s.counts
    ensures name in Evacuated(s, from, to).counts && Drift(Evacuated(s, from, to), name) == Drift(s, name)
  {
    hide Drift, Wrapped, On, MovedAll;
    OnAfterEvacuation(s.sessions, from, to, name);
    var k := |On(s.sessions, from)|;
    WrappedOf(s.counts[name]);
    if from == to {
      ShiftTwice(s.counts, to, -k, k);
      ShiftNothing(s.counts, to);
    }
    var d: int := (if name == to then k else 0) - (if name == from then k else 0);
    assert Evacuated(s, from, to).counts[name] == Wrapped(s.counts[name] + d);
    ShiftKeepsDrift(s, Evacuated(s, from, to), name, d);
  }

  /** From every state, right or wrong, every command but a registration of the name itself keeps
      the name's drift. */
  lemma StepKeepsDrift(s: Proxy, c: Command, name: string)
    requires c != Register(name, true) && name in Apply(s, c).counts
    ensures name in s.counts && Drift(Apply(s, c), name) == Drift(s, name)
  {
    hide Evacuated, Move, On, Wrapped;
    match c
    case Register(other, _) =>
    case Transfer(u, server) =>
      if u in s.sessions {
        MoveSameNames(s, u, server);
        MoveKeepsDrift(s, u, server, name);
      }
    case Deregister(other, fallback) =>
      if other in s.counts {
        EvacuationSameNames(s, other, fallback);
        EvacuationKeepsDrift(s, other, fallback, name);
      }
  }

  lemma MoveSameNames(s: Proxy, u: Uuid, to: string)
    requires u in s.sessions
    ensures Move(s, u, to).counts.Keys == s.counts.Keys
    ensures Move(s, u, to).sessions.Keys == s.sessions.Keys
  {
    hide Wrapped;
  }

  lemma EvacuationSameNames(s: Proxy, from: string, to: string)
    ensures Evacuated(s, from, to).counts.Keys == s.counts.Keys
    ensures Evacuated(s, from, to).sessions.Keys == s.sessions.Keys
  {
    hide Wrapped, On;
  }

  lemma RightIsNoDrift(s: Proxy, name: string)
    requires name in s.counts && |s.sessions| < WRAP
    ensures Right(s, name) <==> Drift(s, name) == 0
  {
    hide On;
    OnBound(s.sessions, name);
    var d := s.counts[name] - |On(s.sessions, name)|;
    UniqueRemainder(d, WRAP, if d < 0 then -1 else 0, if d < 0 then d + WRAP else d);
  }

  // ---------------------------------------------------------------------
  // Who is where
  // ---------------------------------------------------------------------

  /** After a transfer the player is on the target and nobody else has moved; the counters of the two
      servers, as far as they are registered, are the only ones that changed, by one each. */
  lemma TransferMoves(s: Proxy, u: Uuid, server: string)
    requires u in s.sessions
    ensures var s' := Apply(s, Transfer(u, server));
      && s'.sessions.Keys == s.sessions.Keys && s'.sessions[u] == Some(server)
      && (forall v <- s.sessions :: v != u ==> s'.sessions[v] == s.sessions[v])
      && s'.counts.Keys == s.counts.Keys
      && (forall n <- s.counts :: n != server && s.sessions[u] != Some(n) ==> s'.counts[n] == s.counts[n])
      && (server in s.counts && s.sessions[u] != Some(server) ==>
            s'.counts[server] == if s.counts[server] == WRAP - 1 then 0 else s.counts[server] + 1)
      && (forall n <- s.counts :: n != server && s.sessions[u] == Some(n) ==>
            s'.counts[n] == if s.counts[n] == 0 then WRAP - 1 else s.counts[n] - 1)
      && (s.sessions[u] == Some(server) ==> s'.counts == s.counts)
  {
    var from := s.sessions[u];
    hide Wrapped;
    if server in s.counts {
      WrappedOne(s.counts[server]);
    }
    if from.Some? && from.value in s.counts {
      WrappedOne(s.counts[from.value]);
    }
    if from == Some(server) {
      ShiftTwice(s.counts, server, -1, 1);
      ShiftNothing(s.counts, server);
    }
  }

  lemma WrappedOne(n: Count)
    ensures Wrapped(n + 1) == if n == WRAP - 1 then 0 else n + 1
    ensures Wrapped(n - 1) == if n == 0 then WRAP - 1 else n - 1
  {
  }

  /** A player nobody knows is not transferred. */
  lemma UnknownStays(s: Proxy, u: Uuid, server: string)
    requires u !in s.sessions
    ensures Apply(s, Transfer(u, server)) == s
  {
  }

  /** After a deregistration the server is gone, everyone who was on it is on the fallback, and nobody
      else has moved. */
  lemma DeregisterMoves(s: Proxy, name: string, fallback: string)
    requires name in s.counts
    ensures var s' := Apply(s, Deregister(name, fallback));
      && s'.counts.Keys == s.counts.Keys - {name} && s'.sessions.Keys == s.sessions.Keys
      && (forall u <- s.sessions :: s.sessions[u] == Some(name) ==> s'.sessions[u] == Some(fallback))
      && (forall u <- s.sessions :: s.sessions[u] != Some(name) ==> s'.sessions[u] == s.sessions[u])
      && (forall n <- s.counts :: n != name && n != fallback ==> s'.counts[n] == s.counts[n])
      && (fallback in s.counts && fallback != name ==>
            s'.counts[fallback] == (s.counts[fallback] + |On(s.sessions, name)|) % WRAP)
  {
    hide On;
  }

  // ---------------------------------------------------------------------
  // Runs
  // ---------------------------------------------------------------------

  lemma ApplySameSessions(s: Proxy, c: Command)
    ensures Apply(s, c).sessions.Keys == s.sessions.Keys
  {
    hide Evacuated, Move;
    match c
    case Register(name, _) =>
    case Transfer(u, server) =>
      if u in s.sessions {
        MoveSameNames(s, u, server);
      }
    case Deregister(name, fallback) => EvacuationSameNames(s, name, fallback);
  }

  lemma {:induction false} AfterSameSessions(s: Proxy, commands: seq<Command>)
    ensures After(s, commands).sessions.Keys == s.sessions.Keys
  {
    hide Apply;
    if commands != [] {
      var front := commands[..|commands| - 1];
      AfterSameSessions(s, front);
      ApplySameSessions(After(s, front), commands[|commands| - 1]);
    }
  }

  /** Whether the name's counter should be right after the run: nobody was on the name when it was
      last registered; without a registration, it was right to begin with. */
  predicate LastRegisteredEmpty(s: Proxy, commands: seq<Command>, name: string) {
    if commands == [] then Right(s, name)
    else
      var front := commands[..|commands| - 1];
      if commands[|commands| - 1] == Register(name, true) then On(After(s, front).sessions, name) == {}
      else LastRegisteredEmpty(s, front, name)
  }

  /** After every run of commands, a registered server's counter is the number of sessions on it
      exactly when nobody was on it at its last registration. */
  lemma {:induction false} CountRightExactly(s: Proxy, commands: seq<Command>, name: string)
    requires |s.sessions| < WRAP && name in After(s, commands).counts
    ensures Right(After(s, commands), name) <==> LastRegisteredEmpty(s, commands, name)
  {
    hide Apply, On, Drift, Right;
    if commands != [] {
      var front, last := commands[..|commands| - 1], commands[|commands| - 1];
      var before := After(s, front);
      AfterSameSessions(s, front);
      AfterSameSessions(s, commands);
      if last == Register(name, true) {
        RegisterRightExactly(before, name);
      } else {
        StepKeepsDrift(before, last, name);
        CountRightExactly(s, front, name);
        RightIsNoDrift(before, name);
        RightIsNoDrift(After(s, commands), name);
      }
    }
  }

  lemma RegisterRightExactly(s: Proxy, name: string)
    ensures Right(Apply(s, Register(name, true)), name) <==> On(s.sessions, name) == {}
  {
    hide On;
    var on := On(s.sessions, name);
    assert on == {} <==> |on| == 0;
  }

  /** Only names nobody is on are registered. */
  predicate FreshNames(s: Proxy, commands: seq<Command>) {
    forall i :: 0 <= i < |commands| && commands[i].Register? && commands[i].addressParses ==>
      On(After(s, commands[..i]).sessions, commands[i].name) == {}
  }

  lemma {:induction false} FreshIsEmpty(s: Proxy, commands: seq<Command>, name: string)
    requires FreshNames(s, commands) && (name in s.counts ==> Right(s, name))
    requires name in After(s, commands).counts
    ensures LastRegisteredEmpty(s, commands, name)
  {
    hide On, Right, Drift;
    if commands != [] {
      var n := |commands| - 1;
      var front := commands[..n];
      assert forall i :: 0 <= i < n ==> commands[..i] == front[..i];
      if commands[n] != Register(name, true) {
        StepKeepsDrift(After(s, front), commands[n], name);
        FreshIsEmpty(s, front, name);
      }
    }
  }

  /** Every run of transfers, deregistrations and registrations of names nobody is on keeps every
      counter equal to the number of sessions on its server. */
  lemma CountsStayRight(s: Proxy, commands: seq<Command>)
    requires Consistent(s) && |s.sessions| < WRAP && FreshNames(s, commands)
    ensures Consistent(After(s, commands))
  {
    hide After, FreshNames, LastRegisteredEmpty, Right;
    forall name | name in After(s, commands).counts ensures Right(After(s, commands), name) {
      FreshIsEmpty(s, commands, name);
      CountRightExactly(s, commands, name);
    }
  }

  /** A counter about to be decremented is then not zero, and one about to be incremented not full. */
  lemma MoveNeverWraps(s: Proxy, u: Uuid, to: string)
    requires Consistent(s) && |s.sessions| < WRAP && u in s.sessions && s.sessions[u] != Some(to)
    ensures forall from :: s.sessions[u] == Some(from) && from in s.counts ==> s.counts[from] >= 1
    ensures to in s.counts ==> s.counts[to] + 1 < WRAP
  {
    forall from | s.sessions[u] == Some(from) && from in s.counts ensures s.counts[from] >= 1 {
      assert u in On(s.sessions, from);
      assert Right(s, from);
    }
    if to in s.counts {
      var on := On(s.sessions, to);
      assert u !in on && Right(s, to);
      SubsetSize(on + {u}, s.sessions.Keys);
      assert |on + {u}| == |on| + 1;
    }
  }

  // ---------------------------------------------------------------------
  // The commands in place
  // ---------------------------------------------------------------------

  /** `Evacuated` for the sessions in `moved` only. */
  function Moved(s: Proxy, from: string, to: string, moved: set<Uuid>): Proxy {
    Proxy(map u | u in s.sessions :: if u in moved then Some(to) else s.sessions[u],
          Shift(Shift(s.counts, from, -|moved|), to, |moved|))
  }

  lemma ShiftsCommute(counts: map<string, Count>, a: string, d: int, b: string, e: int)
    ensures Shift(Shift(counts, a, d), b, e) == Shift(Shift(counts, b, e), a, d)
  {
    hide Wrapped;
    if a == b {
      ShiftTwice(counts, a, d, e);
      ShiftTwice(counts, a, e, d);
    }
  }

  lemma MovedNothing(s: Proxy, from: string, to: string)
    ensures Moved(s, from, to, {}) == s
  {
    hide Shift;
    ShiftNothing(s.counts, from);
    ShiftNothing(s.counts, to);
    assert Moved(s, from, to, {}).sessions == s.sessions;
  }

  lemma MovedMore(s: Proxy, from: string, to: string, moved: set<Uuid>, u: Uuid)
    requires u in s.sessions && u !in moved && s.sessions[u] == Some(from)
    ensures Move(Moved(s, from, to, moved), u, to) == Moved(s, from, to, moved + {u})
  {
    hide Shift;
    var k := |moved|;
    assert |moved + {u}| == k + 1;
    var c := Shift(s.counts, from, -k);
    ShiftsCommute(c, to, k, from, -1);
    ShiftTwice(s.counts, from, -k, -1);
    ShiftTwice(Shift(s.counts, from, -k - 1), to, k, 1);
    assert Move(Moved(s, from, to, moved), u, to).sessions == Moved(s, from, to, moved + {u}).sessions;
  }

  lemma MovedAllOfThem(s: Proxy, from: string, to: string)
    ensures Moved(s, from, to, On(s.sessions, from)) == Evacuated(s, from, to)
  {
    hide Shift;
    assert Moved(s, from, to, On(s.sessions, from)).sessions == MovedAll(s.sessions, from, to);
  }

  lemma NobodyLeft(sessions: Sessions, name: string)
    ensures On(sessions, name) - sessions.Keys == {}
  {
  }

  /** Visiting one more session of those still to do. */
  lemma Visit(s: Proxy, from: string, to: string, todo: set<Uuid>, u: Uuid)
    requires u in todo && todo <= s.sessions.Keys
    ensures var moved, rest := On(s.sessions, from) - todo, On(s.sessions, from) - (todo - {u});
      && u in Moved(s, from, to, moved).sessions
      && Moved(s, from, to, moved).sessions[u] == s.sessions[u]
      && u !in moved
      && rest == if s.sessions[u] == Some(from) then moved + {u} else moved
  {
    hide Shift;
  }

  class ProxyState {
    var sessions: Sessions
    var counts: map<string, Count>

    ghost function State(): Proxy
      reads this
    {
      Proxy(sessions, counts)
    }

    constructor (sessions: Sessions)
      ensures State() == Proxy(sessions, map[]) && Consistent(State())
    {
      this.sessions, counts := sessions, map[];
    }

    /** A fresh counter replaces whatever was registered under the name; an address that does not
        parse changes nothing. */
    method RegisterServer(name: string, addressParses: bool)
      modifies this
      ensures State() == Apply(old(State()), Register(name, addressParses))
    {
      if !addressParses {
        return;
      }
      if name in counts {
        counts := counts - {name};
      }
      counts := counts[name := 0];
    }

    method FetchAdd(name: string, d: int)
      modifies this`counts
      ensures counts == Shift(old(counts), name, d)
    {
      if name in counts {
        counts := counts[name := (counts[name] + d) % WRAP];
      }
    }

    method MoveSession(u: Uuid, to: string)
      requires u in sessions
      modifies this
      ensures State() == Move(old(State()), u, to)
    {
      if sessions[u].Some? {
        FetchAdd(sessions[u].value, -1);
      }
      FetchAdd(to, 1);
      sessions := sessions[u := Some(to)];
    }

    /** Nothing happens for an unknown player; an unknown server is set all the same. */
    method TransferPlayer(u: Uuid, server: string)
      modifies this
      ensures State() == Apply(old(State()), Transfer(u, server))
    {
      if u in sessions {
        MoveSession(u, server);
      }
    }

    /** Sessions are visited in any order; the result is the number that were on the server. */
    method EvacuatePlayers(from: string, to: string) returns (evacuated: nat)
      modifies this
      ensures State() == Evacuated(old(State()), from, to)
      ensures evacuated == |On(old(sessions), from)|
    {
      hide Shift, Wrapped, Move, Moved, On, Evacuated;
      ghost var was := State();
      evacuated := 0;
      var snapshot := sessions.Keys;
      ghost var moved: set<Uuid> := {};
      MovedNothing(was, from, to);
      NobodyLeft(was.sessions, from);
      while snapshot != {}
        invariant State() == Moved(was, from, to, moved)
        invariant snapshot <= was.sessions.Keys
        invariant moved == On(was.sessions, from) - snapshot && evacuated == |moved|
        decreases |snapshot|
      {
        var u :| u in snapshot;
        Visit(was, from, to, snapshot, u);
        if sessions[u] == Some(from) {
          MovedMore(was, from, to, moved, u);
          MoveSession(u, to);
          moved := moved + {u};
          evacuated := evacuated + 1;
        }
        snapshot := snapshot - {u};
      }
      assert moved == On(was.sessions, from) - {} == On(was.sessions, from);
      MovedAllOfThem(was, from, to);
    }

    /** The default server takes the players of the one that goes. */
    method DeregisterServer(name: string, fallback: string)
      modifies this
      ensures State() == Apply(old(State()), Deregister(name, fallback))
    {
      if name in counts {
        var evacuated := EvacuatePlayers(name, fallback);
        counts := counts - {name};
      }
    }
  }
}
