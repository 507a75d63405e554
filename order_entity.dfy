/** The reservation entity: a mutable object with a surrogate id, the client
    it books for, its date-time and its status, and the builder that creates
    fully initialised reservations. */
module OrderEntity {
  import opened Errors
  import opened Time

  type ClientId = int

  /** A reservation is reserved when created and may later be cancelled. */
  datatype OrderStatus = Reserved | Cancelled

  /** Java's `int`: arithmetic wraps modulo 2^32. */
  function ToInt32(x: int): (r: int)
    ensures -0x8000_0000 <= r < 0x8000_0000
    ensures (r - x) % 0x1_0000_0000 == 0
  {
    var m := x % 0x1_0000_0000;
    if m >= 0x8000_0000 then m - 0x1_0000_0000 else m
  }

  /** `Long.hashCode`: the two 32-bit halves of the 64-bit value, exclusive-or'ed. */
  function LongHash(v: int): (r: int)
    ensures -0x8000_0000 <= r < 0x8000_0000
  {
    var u := (v % 0x1_0000_0000_0000_0000) as bv64;
    var x := u ^ (u >> 32);
    ToInt32((x & 0xFFFF_FFFF) as int)
  }

  /** Hash of a date-time. `LocalDateTime.hashCode` combines calendar fields the
      model does not keep; this stand-in is a function of the same value. */
  function DateTimeHash(dt: DateTime): int {
    ToInt32(Minutes(dt))
  }

  /** Hash of a status. An enum's hash is its identity hash; the stand-in is its ordinal. */
  function StatusHash(s: OrderStatus): int {
    match s
    case Reserved => 0
    case Cancelled => 1
  }

  /** One step of `Arrays.hashCode`: 31 * h + (hash of the element, 0 for null). */
  function HashStep(h: int, element: int): int {
    ToInt32(31 * h + element)
  }

  class Order {
    var id: Option<int>
    var client: Option<ClientId>
    var dateTime: Option<DateTime>
    var status: Option<OrderStatus>

    /** The public no-argument constructor leaves every field null. */
    constructor ()
      ensures id == None && client == None && dateTime == None && status == None
    {
      id, client, dateTime, status := None, None, None, None;
    }

    /** The private constructor used by `Builder.Build`: takes the builder's
        client, date-time and status; the id stays null until the order is saved. */
    constructor FromBuilder(b: Builder)
      ensures id == None && client == b.client && dateTime == b.dateTime && status == b.status
    {
      id, client, dateTime, status := None, b.client, b.dateTime, b.status;
    }

    /** An entity as the store hands it out: every field set. */
    constructor Loaded(i: int, c: ClientId, dt: DateTime, s: OrderStatus)
      ensures id == Some(i) && client == Some(c) && dateTime == Some(dt) && status == Some(s)
    {
      id, client, dateTime, status := Some(i), Some(c), Some(dt), Some(s);
    }

    method SetId(v: Option<int>)
      modifies this
      ensures id == v && client == old(client) && dateTime == old(dateTime) && status == old(status)
    {
      id := v;
    }

    method SetClient(v: Option<ClientId>)
      modifies this
      ensures client == v && id == old(id) && dateTime == old(dateTime) && status == old(status)
    {
      client := v;
    }

    method SetDateTime(v: Option<DateTime>)
      modifies this
      ensures dateTime == v && id == old(id) && client == old(client) && status == old(status)
    {
      dateTime := v;
    }

    method SetStatus(v: Option<OrderStatus>)
      modifies this
      ensures status == v && id == old(id) && client == old(client) && dateTime == old(dateTime)
    {
      status := v;
    }

    /** `equals`: the same object, or an order with the same id, date-time and
        status; the client takes no part. Identity adds nothing to field equality. */
    predicate Equals(other: Order?)
      reads this, other
      ensures Equals(other) <==> other != null && id == other.id && dateTime == other.dateTime &&
                                 status == other.status
    {
      this == other ||
      (other != null && id == other.id && dateTime == other.dateTime && status == other.status)
    }

    /** `hashCode`: `Objects.hash(id, dateTime, status)`, a Java `int`. */
    function HashCode(): (r: int)
      reads this
      ensures -0x8000_0000 <= r < 0x8000_0000
    {
      var h0 := HashStep(1, match id case None => 0 case Some(v) => LongHash(v));
      var h1 := HashStep(h0, match dateTime case None => 0 case Some(dt) => DateTimeHash(dt));
      HashStep(h1, match status case None => 0 case Some(s) => StatusHash(s))
    }
  }

  /** `equals` is reflexive. */
  lemma EqualsReflexive(a: Order)
    ensures a.Equals(a)
  {
  }

  /** `equals` is symmetric. */
  lemma EqualsSymmetric(a: Order, b: Order)
    ensures a.Equals(b) <==> b.Equals(a)
  {
  }

  /** `equals` is transitive. */
  lemma EqualsTransitive(a: Order, b: Order, c: Order)
    requires a.Equals(b) && b.Equals(c)
    ensures a.Equals(c)
  {
  }

  /** Equal orders have equal hash codes. */
  lemma HashCodeAgreesWithEquals(a: Order, b: Order)
    requires a.Equals(b)
    ensures a.HashCode() == b.HashCode()
  {
  }

  /** Accumulates an order's fields step by step; `Build` validates them. */
  class Builder {
    var client: Option<ClientId>
    var dateTime: Option<DateTime>
    var status: Option<OrderStatus>

    /** `Builder.newBuilder()`: every field null. */
    constructor NewBuilder()
      ensures client == None && dateTime == None && status == None
    {
      client, dateTime, status := None, None, None;
    }

    method WithClient(val: Option<ClientId>) returns (b: Builder)
      modifies this
      ensures b == this && client == val && dateTime == old(dateTime) && status == old(status)
    {
      client := val;
      b := this;
    }

    method WithDateTime(val: Option<DateTime>) returns (b: Builder)
      modifies this
      ensures b == this && dateTime == val && client == old(client) && status == old(status)
    {
      dateTime := val;
      b := this;
    }

    method WithStatus(val: Option<OrderStatus>) returns (b: Builder)
      modifies this
      ensures b == this && status == val && client == old(client) && dateTime == old(dateTime)
    {
      status := val;
      b := this;
    }

    /** A new order carrying the builder's fields, once all three are set;
        otherwise a configuration error. */
    method Build() returns (r: Result<Order>)
      ensures r.Ok? <==> client.Some? && dateTime.Some? && status.Some?
      ensures r.Err? ==> r.error == InternalServerError
      ensures r.Ok? ==> fresh(r.value) && r.value.id == None && r.value.client == client &&
                        r.value.dateTime == dateTime && r.value.status == status
    {
      if client.None? || dateTime.None? || status.None? {
        return Err(InternalServerError);
      }
      var order := new Order.FromBuilder(this);
      return Ok(order);
    }
  }
}
