/** The reservation store as a sequence of rows, and the repository's queries
    as functions over it: each query selects the rows its WHERE clause admits. */
module OrderRepository {
  import opened Errors
  import opened Time
  import opened OrderEntity

  /** A stored reservation: the persisted fields of an order. */
  datatype OrderRow = OrderRow(id: int, clientId: ClientId, dateTime: DateTime, status: OrderStatus)

  /** The WHERE clauses of the repository's six queries. */
  datatype Query =
    | WithId(id: int)
    | ReservedBetween(lo: DateTime, hi: DateTime)
    | AnyBetween(lo: DateTime, hi: DateTime)
    | OfClientNamed(names: map<ClientId, string>, name: string)
    | ReservedAt(at: DateTime)
    | ClientReservedBetween(clientId: ClientId, lo: DateTime, hi: DateTime)

  predicate Matches(q: Query, o: OrderRow) {
    match q
    case WithId(id) => o.id == id
    case ReservedBetween(lo, hi) => o.status == Reserved && Between(o.dateTime, lo, hi)
    case AnyBetween(lo, hi) => Between(o.dateTime, lo, hi)
    case OfClientNamed(names, name) => o.clientId in names && names[o.clientId] == name
    case ReservedAt(at) => o.dateTime == at && o.status == Reserved
    case ClientReservedBetween(c, lo, hi) =>
      o.clientId == c && o.status == Reserved && Between(o.dateTime, lo, hi)
  }

  /** The rows a query admits, in store order. */
  function Select(s: seq<OrderRow>, q: Query): (r: seq<OrderRow>)
    ensures |r| <= |s|
    ensures forall o {:trigger o in r} :: o in r <==> o in s && Matches(q, o)
  {
    if s == [] then []
    else
      assert s == s[..|s| - 1] + [s[|s| - 1]];
      Select(s[..|s| - 1], q) + (if Matches(q, s[|s| - 1]) then [s[|s| - 1]] else [])
  }

  /** Selecting from two parts of a store is selecting from each part. */
  lemma {:induction false} SelectConcat(s: seq<OrderRow>, t: seq<OrderRow>, q: Query)
    ensures Select(s + t, q) == Select(s, q) + Select(t, q)
    decreases |t|
  {
    if t == [] {
      assert s + t == s;
    } else {
      var u, x := t[..|t| - 1], t[|t| - 1];
      var tail := if Matches(q, x) then [x] else [];
      SelectConcat(s, u, q);
      assert (s + t)[..|s + t| - 1] == s + u;
      assert (s + t)[|s + t| - 1] == x;
      assert Select(t, q) == Select(u, q) + tail;
      assert Select(s + t, q) == Select(s + u, q) + tail;
      assert (Select(s, q) + Select(u, q)) + tail == Select(s, q) + (Select(u, q) + tail);
    }
  }

  /** Selecting from a single row. */
  lemma SelectSingle(x: OrderRow, q: Query)
    ensures Select([x], q) == if Matches(q, x) then [x] else []
  {
    assert [x][..0] == [];
  }

  /** Replacing one row by a row the query does not admit removes that row
      from the selection if it was there, and changes nothing else. */
  lemma SelectUpdateUnmatched(s: seq<OrderRow>, i: int, x: OrderRow, q: Query)
    requires 0 <= i < |s| && !Matches(q, x)
    ensures |Select(s[i := x], q)| == |Select(s, q)| - (if Matches(q, s[i]) then 1 else 0)
  {
    var pre, post := s[..i], s[i + 1..];
    assert s == pre + [s[i]] + post;
    assert s[i := x] == pre + [x] + post;
    SelectConcat(pre + [s[i]], post, q);
    SelectConcat(pre, [s[i]], q);
    SelectConcat(pre + [x], post, q);
    SelectConcat(pre, [x], q);
    SelectSingle(s[i], q);
    SelectSingle(x, q);
  }

  /** `findById`: the row with that id, or none. */
  function FindById(s: seq<OrderRow>, id: int): (r: Option<OrderRow>)
    ensures r.Some? ==> r.value in s && r.value.id == id
    ensures r.None? <==> forall o :: o in s ==> o.id != id
  {
    var found := Select(s, WithId(id));
    assert forall o :: o in s && o.id == id ==> o in found;
    if found == [] then None else assert found[0] in found; Some(found[0])
  }

  /** `findReservedDateTimesByDateRange`: one date-time per reserved row in the
      inclusive range, duplicates kept, in store order. */
  function FindReservedDateTimesByDateRange(s: seq<OrderRow>, lo: DateTime, hi: DateTime): (r: seq<DateTime>)
    ensures |r| == |Select(s, ReservedBetween(lo, hi))|
    ensures forall i :: 0 <= i < |r| ==> r[i] == Select(s, ReservedBetween(lo, hi))[i].dateTime
    ensures forall i :: 0 <= i < |r| ==> Between(r[i], lo, hi)
  {
    var rows := Select(s, ReservedBetween(lo, hi));
    assert forall i :: 0 <= i < |rows| ==> rows[i] in rows;
    seq(|rows|, i requires 0 <= i < |rows| => rows[i].dateTime)
  }

  /** `findByDateTimeRange`: every row in the inclusive range, whatever its status. */
  function FindByDateTimeRange(s: seq<OrderRow>, lo: DateTime, hi: DateTime): (r: seq<OrderRow>)
    ensures forall o :: o in r <==> o in s && Between(o.dateTime, lo, hi)
  {
    Select(s, AnyBetween(lo, hi))
  }

  /** `findByClientName`: every row whose client bears that name, cancelled ones included. */
  function FindByClientName(s: seq<OrderRow>, names: map<ClientId, string>, name: string): (r: seq<OrderRow>)
    ensures forall o :: o in r <==> o in s && o.clientId in names && names[o.clientId] == name
  {
    Select(s, OfClientNamed(names, name))
  }

  /** `countReservationsForDateTime`: the reserved rows at exactly that date-time. */
  function CountReservationsForDateTime(s: seq<OrderRow>, dt: DateTime): (r: nat)
    ensures r <= |s|
    ensures r == 0 <==> forall o :: o in s ==> !(o.status == Reserved && o.dateTime == dt)
  {
    var rows := Select(s, ReservedAt(dt));
    assert rows != [] ==> rows[0] in rows;
    assert forall o :: o in s && Matches(ReservedAt(dt), o) ==> o in rows;
    |rows|
  }

  /** `countReservationsForClientByDateTimeRange`: the client's reserved rows
      in the inclusive range. */
  function CountReservationsForClientByDateTimeRange(s: seq<OrderRow>, c: ClientId,
                                                     lo: DateTime, hi: DateTime): (r: nat)
    ensures r <= |s|
    ensures r == 0 <==> forall o :: o in s ==>
                          !(o.clientId == c && o.status == Reserved && Between(o.dateTime, lo, hi))
  {
    var rows := Select(s, ClientReservedBetween(c, lo, hi));
    assert rows != [] ==> rows[0] in rows;
    assert forall o :: o in s && Matches(ClientReservedBetween(c, lo, hi), o) ==> o in rows;
    |rows|
  }

  /** With both bounds at one date-time, the range count is the client's
      reserved rows at exactly that date-time. */
  lemma ExactRangeIsExactSlot(s: seq<OrderRow>, c: ClientId, dt: DateTime, o: OrderRow)
    ensures Matches(ClientReservedBetween(c, dt, dt), o) <==>
            o.clientId == c && o.status == Reserved && o.dateTime == dt
  {
  }

  /** Appending a row raises each count by one exactly when the row matches. */
  lemma CountsAfterAppend(s: seq<OrderRow>, x: OrderRow, q: Query)
    ensures |Select(s + [x], q)| == |Select(s, q)| + (if Matches(q, x) then 1 else 0)
  {
    SelectConcat(s, [x], q);
    SelectSingle(x, q);
  }
}
