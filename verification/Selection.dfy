/** Choosing a backend of a server group. */
module Selection {
  import opened Bytes

  datatype Backend = Backend(name: string, online: bool, players: nat, maxPlayers: nat, latencyMs: nat, weight: nat) {
    predicate IsFull() {
      maxPlayers != 0 && players >= maxPlayers
    }

    predicate Eligible() {
      online && !IsFull()
    }

    /** A latency of zero is "not measured" and sorts last. */
    function LatencyKey(): nat {
      if latencyMs == 0 then 0xFFFF_FFFF_FFFF_FFFF else latencyMs
    }
  }

  datatype Strategy = LeastConnections | Latency | Weighted

  // ---------------------------------------------------------------------
  // Weighted choice
  // ---------------------------------------------------------------------

  function Total(bs: seq<Backend>): nat {
    if bs == [] then 0 else bs[0].weight + Total(bs[1..])
  }

  /** The index the scan stops at. */
  function Pick(bs: seq<Backend>, roll: nat): (i: nat)
    requires roll < Total(bs)
    ensures i < |bs|
  {
    if roll < bs[0].weight then 0 else 1 + Pick(bs[1..], roll - bs[0].weight)
  }

  /** Candidate `i` owns the rolls from the weight before it up to its own weight more. */
  lemma {:induction false} PickExact(bs: seq<Backend>, roll: nat, i: nat)
    requires roll < Total(bs) && i < |bs|
    ensures Pick(bs, roll) == i <==> Total(bs[..i]) <= roll < Total(bs[..i]) + bs[i].weight
    decreases |bs|
  {
    if i > 0 {
      assert bs[..i][0] == bs[0] && bs[..i][1..] == bs[1..][..i - 1];
      if roll >= bs[0].weight {
        PickExact(bs[1..], roll - bs[0].weight, i - 1);
      }
    }
  }

  lemma {:induction false} TotalSplit(bs: seq<Backend>, i: nat)
    requires i < |bs|
    ensures Total(bs[..i]) + bs[i].weight <= Total(bs)
    decreases |bs|
  {
    if i > 0 {
      assert bs[..i][0] == bs[0] && bs[..i][1..] == bs[1..][..i - 1];
      TotalSplit(bs[1..], i - 1);
    }
  }

  function Interval(low: int, n: nat): (r: set<int>)
    ensures forall x :: x in r <==> low <= x < low + n
    ensures |r| == n
  {
    if n == 0 then {} else Interval(low, n - 1) + {low + n - 1}
  }

  /** The rolls that choose candidate `i`. */
  ghost function Rolls(bs: seq<Backend>, i: nat): set<int> {
    set roll: int | 0 <= roll < Total(bs) && Pick(bs, roll) == i
  }

  /** Exactly `weight` of the equally likely rolls choose a candidate: none at all for weight zero. */
  lemma PickIsProportional(bs: seq<Backend>, i: nat)
    requires i < |bs|
    ensures |Rolls(bs, i)| == bs[i].weight
  {
    hide Pick, Total;
    var before := Total(bs[..i]);
    TotalSplit(bs, i);
    forall roll: int ensures roll in Rolls(bs, i) <==> before <= roll < before + bs[i].weight {
      if 0 <= roll < Total(bs) {
        PickExact(bs, roll, i);
      }
    }
    assert Rolls(bs, i) == Interval(before, bs[i].weight);
  }

  /** The 64-bit sum of up to 2^32 weights of 32 bits does not wrap. */
  lemma {:induction false} TotalFits(bs: seq<Backend>)
    requires forall b <- bs :: b.weight < 0x1_0000_0000
    ensures Total(bs) <= |bs| * 0xFFFF_FFFF
    ensures |bs| <= 0x1_0000_0000 ==> Total(bs) < 0x1_0000_0000_0000_0000
  {
    if bs != [] {
      assert bs[0] in bs;
      TotalFits(bs[1..]);
    }
  }

  /** `weighted_pick`, the random roll being an argument. The scan never runs off the end. */
  method WeightedPick(candidates: seq<Backend>, roll: nat) returns (pick: Option<Backend>)
    requires Total(candidates) > 0 ==> roll < Total(candidates)
    ensures pick.None? <==> candidates == []
    ensures Total(candidates) > 0 ==> pick == Some(candidates[Pick(candidates, roll)])
    ensures candidates != [] && Total(candidates) == 0 ==> pick == Some(candidates[0])
  {
    pick := None;
    if candidates == [] {
      return None;
    }
    var total := 0;
    for i := 0 to |candidates|
      invariant total + Total(candidates[i..]) == Total(candidates)
    {
      assert candidates[i..][1..] == candidates[i + 1..];
      total := total + candidates[i].weight;
    }
    if total == 0 {
      return Some(candidates[0]);
    }
    var left := roll;
    for i := 0 to |candidates|
      invariant 0 <= left < Total(candidates[i..])
      invariant Pick(candidates, roll) == i + Pick(candidates[i..], left)
    {
      assert candidates[i..][1..] == candidates[i + 1..];
      if left < candidates[i].weight {
        return Some(candidates[i]);
      }
      left := left - candidates[i].weight;
    }
    assert false;
  }

  // ---------------------------------------------------------------------
  // Groups
  // ---------------------------------------------------------------------

  function Candidates(members: seq<string>, registry: map<string, Backend>): (bs: seq<Backend>)
    ensures forall b <- bs :: b.Eligible() && exists m <- members :: m in registry && registry[m] == b
    ensures forall m <- members :: m in registry && registry[m].Eligible() ==> registry[m] in bs
  {
    if members == [] then []
    else
      var rest := Candidates(members[1..], registry);
      var m := members[0];
      if m in registry && registry[m].Eligible() then [registry[m]] + rest else rest
  }

  /** The candidates are the members that are registered, online and not full, in the order of the
      members. */
  lemma {:induction false} CandidatesInOrder(members: seq<string>, more: seq<string>, m: string, registry: map<string, Backend>)
    ensures Candidates(members + more, registry) == Candidates(members, registry) + Candidates(more, registry)
    ensures Candidates([m], registry) ==
      if m in registry && registry[m].online && (registry[m].maxPlayers == 0 || registry[m].players < registry[m].maxPlayers)
      then [registry[m]] else []
    decreases |members|
  {
    assert [m][1..] == [];
    if members == [] {
      assert members + more == more;
    } else {
      CandidatesInOrder(members[1..], more, m, registry);
      assert (members + more)[1..] == members[1..] + more;
    }
  }

  /** A server whose latency was not measured comes after every one whose was, and those are in the
      order of their latencies. */
  lemma LatencyOrder(a: Backend, b: Backend)
    requires a.latencyMs <= 0xFFFF_FFFF_FFFF_FFFF && b.latencyMs <= 0xFFFF_FFFF_FFFF_FFFF
    ensures a.LatencyKey() < b.LatencyKey() <==>
      a.latencyMs != 0 && a.latencyMs < if b.latencyMs == 0 then 0xFFFF_FFFF_FFFF_FFFF else b.latencyMs
  {
  }

  /** The first candidate with the smallest key. */
  ghost predicate FirstLeast(bs: seq<Backend>, key: Backend -> nat, pick: Option<Backend>) {
    if bs == [] then pick == None
    else
      exists i ::
        && 0 <= i < |bs| && pick == Some(bs[i])
        && (forall j :: 0 <= j < |bs| ==> key(bs[i]) <= key(bs[j]))
        && (forall j :: 0 <= j < i ==> key(bs[i]) < key(bs[j]))
  }

  method MinByKey(bs: seq<Backend>, key: Backend -> nat) returns (pick: Option<Backend>)
    ensures FirstLeast(bs, key, pick)
  {
    if bs == [] {
      return None;
    }
    var best := 0;
    for i := 1 to |bs|
      invariant 0 <= best < i
      invariant forall j :: 0 <= j < i ==> key(bs[best]) <= key(bs[j])
      invariant forall j :: 0 <= j < best ==> key(bs[best]) < key(bs[j])
    {
      if key(bs[i]) < key(bs[best]) {
        best := i;
      }
    }
    return Some(bs[best]);
  }

  /** `select_from_group`: an online member with room, by the group's strategy; none only when
      there is no such member. */
  method SelectFromGroup(members: seq<string>, strategy: Strategy, registry: map<string, Backend>, roll: nat)
    returns (pick: Option<Backend>)
    requires Total(Candidates(members, registry)) > 0 ==> roll < Total(Candidates(members, registry))
    ensures pick.None? <==> forall m <- members :: m in registry ==> !registry[m].Eligible()
    ensures pick.Some? ==> pick.value.Eligible() && exists m <- members :: m in registry && registry[m] == pick.value
    ensures strategy == LeastConnections ==> FirstLeast(Candidates(members, registry), (b: Backend) => b.players, pick)
    ensures strategy == Latency ==> FirstLeast(Candidates(members, registry), (b: Backend) => b.LatencyKey(), pick)
    ensures var candidates := Candidates(members, registry);
      strategy == Weighted && Total(candidates) > 0 ==>
        pick == Some(candidates[Pick(candidates, roll)]) && pick.value.weight > 0
    ensures var candidates := Candidates(members, registry);
      strategy == Weighted && Total(candidates) == 0 && candidates != [] ==> pick == Some(candidates[0])
  {
    var candidates := Candidates(members, registry);
    match strategy {
      case LeastConnections => pick := MinByKey(candidates, (b: Backend) => b.players);
      case Latency => pick := MinByKey(candidates, (b: Backend) => b.LatencyKey());
      case Weighted =>
        pick := WeightedPick(candidates, roll);
        if Total(candidates) > 0 {
          PickExact(candidates, roll, Pick(candidates, roll));
        }
    }
    assert pick.Some? ==> pick.value in candidates;
    if candidates != [] {
      assert candidates[0] in candidates;
    }
  }
}
