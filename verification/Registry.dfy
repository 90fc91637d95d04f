/** The packet-id registry: registration and the nearest-lower-version lookup. */
module Registry {
  import opened Bytes

  datatype ProtocolState = Handshake | Status | Login | Configuration | Play
  datatype Direction = Serverbound | Clientbound

  datatype Row = Row(proto: nat, name: string, id: nat)

  type Rows = seq<Row>

  const PRE_NETTY := 78

  // ---------------------------------------------------------------------
  // Registration
  // ---------------------------------------------------------------------

  function Find(rows: Rows, proto: nat, name: string): (r: Option<nat>)
    ensures r.Some? ==> r.value < |rows| && rows[r.value].proto == proto && rows[r.value].name == name
    ensures r.None? ==> forall i :: 0 <= i < |rows| ==> !(rows[i].proto == proto && rows[i].name == name)
  {
    if rows == [] then None
    else if rows[0].proto == proto && rows[0].name == name then Some(0)
    else
      var rest := Find(rows[1..], proto, name);
      if rest.None? then None else Some(rest.value + 1)
  }

  /** Overwrite the row of this version and name, or append one. */
  function Registered(rows: Rows, row: Row): (r: Rows) {
    var at := Find(rows, row.proto, row.name);
    if at.None? then rows + [row] else rows[at.value := row]
  }

  /** No version and name has two rows. */
  predicate Unique(rows: Rows) {
    forall i, j :: 0 <= i < j < |rows| ==> !(rows[i].proto == rows[j].proto && rows[i].name == rows[j].name)
  }

  /** The rows say what the map says. */
  ghost predicate Represents(rows: Rows, ids: map<(nat, string), nat>) {
    && Unique(rows)
    && (forall i :: 0 <= i < |rows| ==> (rows[i].proto, rows[i].name) in ids && ids[(rows[i].proto, rows[i].name)] == rows[i].id)
    && (forall k :: k in ids ==> exists i :: 0 <= i < |rows| && (rows[i].proto, rows[i].name) == k)
  }

  lemma RegisteredRepresents(rows: Rows, ids: map<(nat, string), nat>, row: Row)
    requires Represents(rows, ids)
    ensures Represents(Registered(rows, row), ids[(row.proto, row.name) := row.id])
  {
    var at := Find(rows, row.proto, row.name);
    var r, m := Registered(rows, row), ids[(row.proto, row.name) := row.id];
    forall k | k in m ensures exists i :: 0 <= i < |r| && (r[i].proto, r[i].name) == k {
      if k == (row.proto, row.name) {
        var i := if at.None? then |rows| else at.value;
        assert r[i] == row;
      } else {
        var i :| 0 <= i < |rows| && (rows[i].proto, rows[i].name) == k;
        assert r[i] == rows[i];
      }
    }
  }

  datatype Registration = Registration(state: ProtocolState, direction: Direction, row: Row)

  /** The rows of one state and direction after some registrations. */
  function RowsOf(rs: seq<Registration>, state: ProtocolState, direction: Direction): Rows {
    if rs == [] then []
    else
      var before := RowsOf(rs[..|rs| - 1], state, direction);
      var last := rs[|rs| - 1];
      if last.state == state && last.direction == direction then Registered(before, last.row) else before
  }

  /** The last write to every version and name. */
  function LastWrites(rs: seq<Registration>, state: ProtocolState, direction: Direction): map<(nat, string), nat> {
    if rs == [] then map[]
    else
      var before := LastWrites(rs[..|rs| - 1], state, direction);
      var last := rs[|rs| - 1];
      if last.state == state && last.direction == direction
      then before[(last.row.proto, last.row.name) := last.row.id] else before
  }

  /** After any registrations the registry is the last-write-wins map. */
  lemma {:induction false} RowsAreLastWrites(rs: seq<Registration>, state: ProtocolState, direction: Direction)
    ensures Represents(RowsOf(rs, state, direction), LastWrites(rs, state, direction))
  {
    hide Represents, Registered;
    if rs == [] {
      NothingRepresents();
    } else {
      RowsAreLastWrites(rs[..|rs| - 1], state, direction);
      RegisteredRepresents(RowsOf(rs[..|rs| - 1], state, direction), LastWrites(rs[..|rs| - 1], state, direction), rs[|rs| - 1].row);
    }
  }

  lemma NothingRepresents()
    ensures Represents([], map[])
  {
  }

  // ---------------------------------------------------------------------
  // Lookup
  // ---------------------------------------------------------------------

  function GetId(rows: Rows, proto: nat, name: string): (r: Option<nat>) {
    var at := Find(rows, proto, name);
    if at.None? then None else Some(rows[at.value].id)
  }

  lemma GetIdIsLookup(rows: Rows, ids: map<(nat, string), nat>, proto: nat, name: string)
    requires Represents(rows, ids)
    ensures GetId(rows, proto, name) == if (proto, name) in ids then Some(ids[(proto, name)]) else None
  {
    if (proto, name) in ids {
      var i :| 0 <= i < |rows| && (rows[i].proto, rows[i].name) == (proto, name);
      assert Find(rows, proto, name).Some?;
    }
  }

  /** A row that may answer a request: of that name, not newer, on the same side of the boundary. */
  predicate Usable(proto: nat, name: string, p: nat, n: string) {
    n == name && p <= proto && ((p == PRE_NETTY) == (proto == PRE_NETTY))
  }

  /** `p` is the newest version from which a request for `name` at `proto` may be answered. */
  ghost predicate Newest(ids: map<(nat, string), nat>, proto: nat, name: string, p: nat) {
    && (p, name) in ids && Usable(proto, name, p, name)
    && forall k <- ids :: Usable(proto, name, k.0, k.1) ==> k.0 <= p
  }

  ghost predicate Unanswerable(ids: map<(nat, string), nat>, proto: nat, name: string) {
    forall k <- ids :: !Usable(proto, name, k.0, k.1)
  }

  /** The id of the newest usable version. */
  ghost predicate Answers(ids: map<(nat, string), nat>, proto: nat, name: string, r: Option<nat>) {
    match r
    case Some(id) => exists p: nat :: Newest(ids, proto, name, p) && id == ids[(p, name)]
    case None => Unanswerable(ids, proto, name)
  }

  const OLD_NAME := "ClientboundHeldItemChange"
  const NEW_NAME := "ClientboundSetHeldItem"

  /** What a versioned lookup promises: the name's own newest answer, and for the one renamed packet
      on the modern side, failing that, the new name's. */
  ghost predicate AnswersForVersion(ids: map<(nat, string), nat>, proto: nat, name: string, r: Option<nat>) {
    if !Unanswerable(ids, proto, name) || proto == PRE_NETTY || name != OLD_NAME then Answers(ids, proto, name, r)
    else Answers(ids, proto, NEW_NAME, r)
  }

  /** The scan that keeps the best row so far. */
  method Scan(rows: Rows, proto: nat, name: string, ghost ids: map<(nat, string), nat>) returns (best: Option<nat>)
    requires Represents(rows, ids)
    ensures Answers(ids, proto, name, best)
  {
    var bestProto: Option<nat> := None;
    best := None;
    for i := 0 to |rows|
      invariant bestProto.Some? <==> best.Some?
      invariant bestProto.None? ==> forall j :: 0 <= j < i ==> !Usable(proto, name, rows[j].proto, rows[j].name)
      invariant bestProto.Some? ==>
        && (bestProto.value, name) in ids && Usable(proto, name, bestProto.value, name) && best == Some(ids[(bestProto.value, name)])
        && forall j :: 0 <= j < i && Usable(proto, name, rows[j].proto, rows[j].name) ==> rows[j].proto <= bestProto.value
    {
      var row := rows[i];
      if row.name != name || row.proto > proto {
        continue;
      }
      if (row.proto == PRE_NETTY) != (proto == PRE_NETTY) {
        continue;
      }
      if bestProto.None? || row.proto > bestProto.value {
        bestProto, best := Some(row.proto), Some(row.id);
      }
    }
    if bestProto.Some? {
      forall k <- ids | Usable(proto, name, k.0, k.1) ensures k.0 <= bestProto.value {
        var i :| 0 <= i < |rows| && (rows[i].proto, rows[i].name) == k;
      }
      assert Newest(ids, proto, name, bestProto.value);
    } else {
      forall k <- ids ensures !Usable(proto, name, k.0, k.1) {
        var i :| 0 <= i < |rows| && (rows[i].proto, rows[i].name) == k;
      }
    }
  }

  class PacketRegistry {
    var table: map<(ProtocolState, Direction), Rows>
    ghost var history: seq<Registration>

    ghost predicate Valid()
      reads this
    {
      forall s, d :: RowsAt(s, d) == RowsOf(history, s, d)
    }

    constructor ()
      ensures Valid() && history == []
    {
      table, history := map[], [];
    }

    function RowsAt(state: ProtocolState, direction: Direction): Rows
      reads this
    {
      if (state, direction) in table then table[(state, direction)] else []
    }

    /** The registry becomes that of the longer history. */
    method Register(r: Registration)
      requires Valid()
      modifies this
      ensures Valid() && history == old(history) + [r]
    {
      var rows := RowsAt(r.state, r.direction);
      var at := Find(rows, r.row.proto, r.row.name);
      if at.Some? {
        rows := rows[at.value := r.row];
      } else {
        rows := rows + [r.row];
      }
      table := table[(r.state, r.direction) := rows];
      history := history + [r];
      assert history[..|history| - 1] == old(history);
    }

    /** `get_id`: the last id written for exactly this version and name. */
    method GetIdFor(proto: nat, state: ProtocolState, direction: Direction, name: string) returns (r: Option<nat>)
      requires Valid()
      ensures var ids := LastWrites(history, state, direction);
        r == if (proto, name) in ids then Some(ids[(proto, name)]) else None
    {
      RowsAreLastWrites(history, state, direction);
      GetIdIsLookup(RowsAt(state, direction), LastWrites(history, state, direction), proto, name);
      return GetId(RowsAt(state, direction), proto, name);
    }

    /** `get_id_for_version`. */
    method GetIdForVersion(proto: nat, state: ProtocolState, direction: Direction, name: string)
      returns (r: Option<nat>)
      requires Valid()
      ensures AnswersForVersion(LastWrites(history, state, direction), proto, name, r)
    {
      hide Represents, Newest, Unanswerable, LastWrites, RowsOf;
      ghost var ids := LastWrites(history, state, direction);
      var rows := RowsAt(state, direction);
      RowsAreLastWrites(history, state, direction);
      var exact := Find(rows, proto, name);
      if exact.Some? {
        ExactIsNewest(rows, ids, proto, name);
        return Some(rows[exact.value].id);
      }
      r := Scan(rows, proto, name, ids);
      AnswerExists(ids, proto, name, r);
      if r.None? && proto != PRE_NETTY && name == OLD_NAME {
        r := Scan(rows, proto, NEW_NAME, ids);
      }
    }
  }

  lemma ExactIsNewest(rows: Rows, ids: map<(nat, string), nat>, proto: nat, name: string)
    requires Represents(rows, ids) && Find(rows, proto, name).Some?
    ensures Answers(ids, proto, name, Some(rows[Find(rows, proto, name).value].id))
    ensures !Unanswerable(ids, proto, name)
  {
    assert Newest(ids, proto, name, proto);
    assert Usable(proto, name, (proto, name).0, (proto, name).1);
  }

  lemma AnswerExists(ids: map<(nat, string), nat>, proto: nat, name: string, r: Option<nat>)
    requires Answers(ids, proto, name, r)
    ensures r.None? <==> Unanswerable(ids, proto, name)
  {
    if r.Some? {
      var p: nat :| Newest(ids, proto, name, p) && r.value == ids[(p, name)];
      assert Usable(proto, name, (p, name).0, (p, name).1);
    }
  }

  /** The promise has one answer. */
  lemma AnswerUnique(ids: map<(nat, string), nat>, proto: nat, name: string, r: Option<nat>, r': Option<nat>)
    requires Answers(ids, proto, name, r) && Answers(ids, proto, name, r')
    ensures r == r'
  {
    AnswerExists(ids, proto, name, r);
    AnswerExists(ids, proto, name, r');
    if r.Some? {
      var p: nat :| Newest(ids, proto, name, p) && r.value == ids[(p, name)];
      var p': nat :| Newest(ids, proto, name, p') && r'.value == ids[(p', name)];
      assert Usable(proto, name, (p, name).0, (p, name).1) && Usable(proto, name, (p', name).0, (p', name).1);
      assert p == p';
    }
  }

  /** Nothing is registered for `name` after `low` up to `high`, on the modern side. */
  ghost predicate Gap(ids: map<(nat, string), nat>, name: string, low: nat, high: nat) {
    forall k <- ids :: k.1 == name && low < k.0 <= high ==> k.0 == PRE_NETTY
  }

  lemma GapKeepsAnswer(ids: map<(nat, string), nat>, name: string, low: nat, high: nat, r: Option<nat>)
    requires low <= high && low != PRE_NETTY && high != PRE_NETTY && Gap(ids, name, low, high)
    ensures Answers(ids, low, name, r) <==> Answers(ids, high, name, r)
    ensures Unanswerable(ids, low, name) <==> Unanswerable(ids, high, name)
  {
    assert forall k <- ids :: Usable(low, name, k.0, k.1) <==> Usable(high, name, k.0, k.1);
    forall p: nat ensures Newest(ids, low, name, p) <==> Newest(ids, high, name, p) {
      if (p, name) in ids {
        assert Usable(low, name, (p, name).0, (p, name).1) <==> Usable(high, name, (p, name).0, (p, name).1);
      }
    }
  }

  /** Between registrations the answer does not change; the pre-netty version in between is passed over. */
  lemma ConstantBetweenRegistrations(ids: map<(nat, string), nat>, name: string, low: nat, high: nat, r: Option<nat>)
    requires low <= high && low != PRE_NETTY && high != PRE_NETTY
    requires Gap(ids, name, low, high) && (name == OLD_NAME ==> Gap(ids, NEW_NAME, low, high))
    ensures AnswersForVersion(ids, low, name, r) <==> AnswersForVersion(ids, high, name, r)
  {
    hide Answers, Unanswerable, Gap;
    GapKeepsAnswer(ids, name, low, high, r);
    if name == OLD_NAME {
      GapKeepsAnswer(ids, NEW_NAME, low, high, r);
    }
  }

  /** An answer is the id of the packet asked for, or of its new name, and never comes from across
      the boundary. */
  lemma NeverAcross(ids: map<(nat, string), nat>, proto: nat, name: string, id: nat)
    requires AnswersForVersion(ids, proto, name, Some(id))
    ensures exists p: nat, n: string ::
      && (n == name || (name == OLD_NAME && n == NEW_NAME))
      && (p, n) in ids && ids[(p, n)] == id && p <= proto && ((p == PRE_NETTY) == (proto == PRE_NETTY))
  {
  }
}
