/**
 Relay tickets as the tickets held and the queue that expires them. The derived
 indexes of the server's store are left to `RelayTicketStore`, which is proved to
 do what this module says.

 Offers, accepts and joins all prune first. A due queue entry is taken off the front;
 a ticket with a reservation outstanding goes back behind the others, so the queue
 does not stay sorted.
 */
module RelayTicketSpec {
  import opened Options
  import opened MapSum
  import opened RelaySlots
  import opened Int64
  import opened Text

  const RELAY_TICKET_TTL: int := 90
  const RELAY_UPGRADE_RESERVATION_TIMEOUT: int := 15
  const MAX_RELAY_TICKETS: nat := 50_000
  const MAX_RELAY_TICKET_ENVELOPE_BYTES: nat := 24 * 1024 * 1024
  const MAX_ENVELOPE_BYTES: nat := 2 * 1024
  const MAX_PENDING_RELAY_TICKETS_PER_INITIATOR: nat := 16
  const MAX_ACCEPTED_RELAY_TICKETS_PER_RESPONDER: nat := 8

  type PeerId = nat

  type Capability = c: seq<Byte> | |c| == 32 witness seq(32, _ => 0)

  /** What an offer carries. */
  datatype Terms = Terms(initiator: PeerId, responder: PeerId, capability: Capability, epoch: i64, envelope: seq<Byte>)

  datatype Held = Held(terms: Terms, accepted: bool, initiator: Seat, responder: Seat, expiresAt: int) {
    predicate Reserved() { initiator.reservation.Some? || responder.reservation.Some? }

    function WithSeat(role: Role, seat: Seat): Held {
      if role == Initiator then this.(initiator := seat) else this.(responder := seat)
    }
  }

  datatype Entry = Entry(at: int, id: TicketId)

  datatype Book = Book(tickets: map<TicketId, Held>, queue: seq<Entry>)

  const EMPTY := Book(map[], [])

  // ---------------------------------------------------------------- totals over the tickets

  function FromInitiator(i: PeerId): Held -> bool { (t: Held) => t.terms.initiator == i }

  function AcceptedBy(r: PeerId): Held -> bool { (t: Held) => t.accepted && t.terms.responder == r }

  function Matching(tickets: map<TicketId, Held>, p: Held -> bool): set<TicketId> {
    set id | id in tickets && p(tickets[id])
  }

  function Count(tickets: map<TicketId, Held>, p: Held -> bool): nat { |Matching(tickets, p)| }

  function Sizes(tickets: map<TicketId, Held>): map<TicketId, nat> {
    map id | id in tickets :: |tickets[id].terms.envelope|
  }

  ghost function EnvelopeBytes(tickets: map<TicketId, Held>): nat { Sum(Sizes(tickets)) }

  predicate SamePair(a: Held, b: Terms) { a.terms.initiator == b.initiator && a.terms.responder == b.responder }

  predicate PairTaken(tickets: map<TicketId, Held>, terms: Terms) {
    exists id :: id in tickets && SamePair(tickets[id], terms)
  }

  // ---------------------------------------------------------------- pruning

  predicate HeadDue(queue: seq<Entry>, now: int) { queue != [] && queue[0].at <= now }

  /** How many entries are due before the first that is not. */
  function Due(queue: seq<Entry>, now: int): nat {
    if HeadDue(queue, now) then 1 + Due(queue[1..], now) else 0
  }

  /** Take the entry at the front and settle its ticket. */
  function PopHead(b: Book, now: int): Book
    requires b.queue != []
  {
    var id, rest := b.queue[0].id, b.queue[1..];
    if id !in b.tickets || b.tickets[id].expiresAt > now then Book(b.tickets, rest)
    else if b.tickets[id].Reserved() then Book(b.tickets, rest + [Entry(now + RELAY_UPGRADE_RESERVATION_TIMEOUT, id)])
    else Book(b.tickets - {id}, rest)
  }

  /** An entry not due, put behind, does not make more due. */
  lemma {:induction false} DueAppend(queue: seq<Entry>, e: Entry, now: int)
    requires e.at > now
    ensures Due(queue + [e], now) == Due(queue, now)
  {
    if HeadDue(queue, now) {
      DueAppend(queue[1..], e, now);
      assert (queue + [e])[1..] == queue[1..] + [e];
    }
  }

  lemma PopHeadDue(b: Book, now: int)
    requires HeadDue(b.queue, now)
    ensures Due(PopHead(b, now).queue, now) + 1 == Due(b.queue, now)
  {
    DueAppend(b.queue[1..], Entry(now + RELAY_UPGRADE_RESERVATION_TIMEOUT, b.queue[0].id), now);
  }

  function Pruned(b: Book, now: int): Book
    decreases Due(b.queue, now)
  {
    if !HeadDue(b.queue, now) then b
    else
      PopHeadDue(b, now);
      Pruned(PopHead(b, now), now)
  }

  // ---------------------------------------------------------------- operations

  datatype Op =
    | Offer(id: TicketId, terms: Terms, now: int)
    | Accept(id: TicketId, who: PeerId, now: int)
    | Prune(now: int)
    /** A reserve, commit or rollback changing one seat; only an accepted ticket is reserved. */
    | SetSeat(id: TicketId, role: Role, seat: Seat)

  datatype Answer = Done | TooLarge | Full | Taken | TooMany | Gone | Forbidden

  predicate EnvelopeOk(terms: Terms) { 0 < |terms.envelope| <= MAX_ENVELOPE_BYTES }

  ghost function DoOffer(pruned: Book, id: TicketId, terms: Terms, now: int): (Book, Answer) {
    if |pruned.tickets| >= MAX_RELAY_TICKETS
       || EnvelopeBytes(pruned.tickets) + |terms.envelope| > MAX_RELAY_TICKET_ENVELOPE_BYTES then (pruned, Full)
    else if id in pruned.tickets || PairTaken(pruned.tickets, terms) then (pruned, Taken)
    else if Count(pruned.tickets, FromInitiator(terms.initiator)) >= MAX_PENDING_RELAY_TICKETS_PER_INITIATOR then
      (pruned, TooMany)
    else
      var expiresAt := now + RELAY_TICKET_TTL;
      (Book(pruned.tickets[id := Held(terms, false, Seat(false, None), Seat(false, None), expiresAt)],
            pruned.queue + [Entry(expiresAt, id)]), Done)
  }

  function DoAccept(pruned: Book, id: TicketId, who: PeerId): (Book, Answer) {
    if id !in pruned.tickets then (pruned, Gone)
    else if pruned.tickets[id].terms.responder != who then (pruned, Forbidden)
    else if pruned.tickets[id].accepted then (pruned, Taken)
    else if Count(pruned.tickets, AcceptedBy(who)) >= MAX_ACCEPTED_RELAY_TICKETS_PER_RESPONDER then (pruned, TooMany)
    else (pruned.(tickets := pruned.tickets[id := pruned.tickets[id].(accepted := true)]), Done)
  }

  predicate CanSeat(b: Book, id: TicketId, seat: Seat) {
    id in b.tickets && (seat.reservation.Some? ==> b.tickets[id].accepted)
  }

  function DoSetSeat(b: Book, id: TicketId, role: Role, seat: Seat): Book {
    if CanSeat(b, id, seat) then b.(tickets := b.tickets[id := b.tickets[id].WithSeat(role, seat)]) else b
  }

  ghost function Apply(b: Book, op: Op): (Book, Answer) {
    match op
    case Offer(id, terms, now) => if EnvelopeOk(terms) then DoOffer(Pruned(b, now), id, terms, now) else (b, TooLarge)
    case Accept(id, who, now) => DoAccept(Pruned(b, now), id, who)
    case Prune(now) => (Pruned(b, now), Done)
    case SetSeat(id, role, seat) => (DoSetSeat(b, id, role, seat), Done)
  }

  ghost function After(ops: seq<Op>): Book {
    if ops == [] then EMPTY else Apply(After(ops[..|ops| - 1]), ops[|ops| - 1]).0
  }

  // ---------------------------------------------------------------- what every run keeps

  predicate Queued(queue: seq<Entry>, id: TicketId) { exists i :: 0 <= i < |queue| && queue[i].id == id }

  ghost predicate Distinct(queue: seq<Entry>) {
    forall i, j :: 0 <= i < j < |queue| ==> queue[i].id != queue[j].id
  }

  ghost predicate AllQueued(tickets: map<TicketId, Held>, queue: seq<Entry>) {
    forall id :: id in tickets ==> Queued(queue, id)
  }

  ghost predicate EntriesOk(tickets: map<TicketId, Held>, queue: seq<Entry>) {
    forall i :: 0 <= i < |queue| ==> EntryOk(tickets, queue[i])
  }

  /** The queue holds one entry for each ticket, never earlier than the ticket's expiry. */
  ghost predicate QueueOk(b: Book) {
    Distinct(b.queue) && AllQueued(b.tickets, b.queue) && EntriesOk(b.tickets, b.queue)
  }

  predicate EntryOk(tickets: map<TicketId, Held>, e: Entry) {
    && e.id in tickets
    && tickets[e.id].expiresAt <= e.at
    && (!tickets[e.id].accepted ==> e.at == tickets[e.id].expiresAt)
  }

  ghost predicate TicketsOk(tickets: map<TicketId, Held>) {
    && (forall id :: id in tickets ==>
          EnvelopeOk(tickets[id].terms) && (tickets[id].Reserved() ==> tickets[id].accepted))
    && (forall id, id' :: id in tickets && id' in tickets && SamePair(tickets[id], tickets[id'].terms) ==> id == id')
  }

  ghost predicate WithinLimits(tickets: map<TicketId, Held>) {
    && |tickets| <= MAX_RELAY_TICKETS
    && EnvelopeBytes(tickets) <= MAX_RELAY_TICKET_ENVELOPE_BYTES
    && (forall i: PeerId :: Count(tickets, FromInitiator(i)) <= MAX_PENDING_RELAY_TICKETS_PER_INITIATOR)
    && (forall r: PeerId :: Count(tickets, AcceptedBy(r)) <= MAX_ACCEPTED_RELAY_TICKETS_PER_RESPONDER)
  }

  ghost predicate Inv(b: Book) { QueueOk(b) && TicketsOk(b.tickets) && WithinLimits(b.tickets) }

  // ---------------------------------------------------------------- totals change one ticket at a time

  lemma CountRemove(tickets: map<TicketId, Held>, id: TicketId, p: Held -> bool)
    requires id in tickets
    ensures Count(tickets, p) == Count(tickets - {id}, p) + if p(tickets[id]) then 1 else 0
  {
    assert Matching(tickets - {id}, p) == Matching(tickets, p) - {id};
  }

  lemma CountInsert(tickets: map<TicketId, Held>, id: TicketId, t: Held, p: Held -> bool)
    requires id !in tickets
    ensures Count(tickets[id := t], p) == Count(tickets, p) + if p(t) then 1 else 0
  {
    CountRemove(tickets[id := t], id, p);
    assert tickets[id := t] - {id} == tickets;
  }

  lemma CountUpdate(tickets: map<TicketId, Held>, id: TicketId, t: Held, p: Held -> bool)
    requires id in tickets
    ensures Count(tickets[id := t], p) + (if p(tickets[id]) then 1 else 0) == Count(tickets, p) + if p(t) then 1 else 0
  {
    CountRemove(tickets, id, p);
    CountRemove(tickets[id := t], id, p);
    assert tickets[id := t] - {id} == tickets - {id};
  }

  lemma BytesRemove(tickets: map<TicketId, Held>, id: TicketId)
    requires id in tickets
    ensures EnvelopeBytes(tickets) == EnvelopeBytes(tickets - {id}) + |tickets[id].terms.envelope|
  {
    SumRemove(Sizes(tickets), id);
    assert Sizes(tickets - {id}) == Sizes(tickets) - {id};
  }

  lemma BytesInsert(tickets: map<TicketId, Held>, id: TicketId, t: Held)
    requires id !in tickets
    ensures EnvelopeBytes(tickets[id := t]) == EnvelopeBytes(tickets) + |t.terms.envelope|
  {
    BytesRemove(tickets[id := t], id);
    assert tickets[id := t] - {id} == tickets;
  }

  lemma BytesUpdate(tickets: map<TicketId, Held>, id: TicketId, t: Held)
    requires id in tickets && t.terms == tickets[id].terms
    ensures EnvelopeBytes(tickets[id := t]) == EnvelopeBytes(tickets)
  {
    assert Sizes(tickets[id := t]) == Sizes(tickets);
  }

  // ---------------------------------------------------------------- each step keeps it

  lemma LimitsRemove(tickets: map<TicketId, Held>, id: TicketId)
    requires WithinLimits(tickets) && id in tickets
    ensures WithinLimits(tickets - {id})
  {
    hide Count, EnvelopeBytes;
    BytesRemove(tickets, id);
    assert (tickets - {id}).Keys == tickets.Keys - {id};
    forall i: PeerId
      ensures Count(tickets - {id}, FromInitiator(i)) <= MAX_PENDING_RELAY_TICKETS_PER_INITIATOR
    {
      CountRemove(tickets, id, FromInitiator(i));
      assert Count(tickets, FromInitiator(i)) <= MAX_PENDING_RELAY_TICKETS_PER_INITIATOR;
    }
    forall r: PeerId
      ensures Count(tickets - {id}, AcceptedBy(r)) <= MAX_ACCEPTED_RELAY_TICKETS_PER_RESPONDER
    {
      CountRemove(tickets, id, AcceptedBy(r));
      assert Count(tickets, AcceptedBy(r)) <= MAX_ACCEPTED_RELAY_TICKETS_PER_RESPONDER;
    }
  }

  lemma LimitsInsert(tickets: map<TicketId, Held>, id: TicketId, t: Held)
    requires WithinLimits(tickets) && id !in tickets && !t.accepted
    requires |tickets| < MAX_RELAY_TICKETS
    requires EnvelopeBytes(tickets) + |t.terms.envelope| <= MAX_RELAY_TICKET_ENVELOPE_BYTES
    requires Count(tickets, FromInitiator(t.terms.initiator)) < MAX_PENDING_RELAY_TICKETS_PER_INITIATOR
    ensures WithinLimits(tickets[id := t])
  {
    hide Count, EnvelopeBytes;
    BytesInsert(tickets, id, t);
    forall i: PeerId
      ensures Count(tickets[id := t], FromInitiator(i)) <= MAX_PENDING_RELAY_TICKETS_PER_INITIATOR
    {
      CountInsert(tickets, id, t, FromInitiator(i));
      assert Count(tickets, FromInitiator(i)) <= MAX_PENDING_RELAY_TICKETS_PER_INITIATOR;
    }
    forall r: PeerId
      ensures Count(tickets[id := t], AcceptedBy(r)) <= MAX_ACCEPTED_RELAY_TICKETS_PER_RESPONDER
    {
      CountInsert(tickets, id, t, AcceptedBy(r));
      assert Count(tickets, AcceptedBy(r)) <= MAX_ACCEPTED_RELAY_TICKETS_PER_RESPONDER;
    }
  }

  /** Changing a ticket in place, acceptance apart, moves no total. */
  lemma LimitsUpdate(tickets: map<TicketId, Held>, id: TicketId, t: Held)
    requires WithinLimits(tickets) && id in tickets && t.terms == tickets[id].terms
    requires t.accepted && !tickets[id].accepted ==>
               Count(tickets, AcceptedBy(t.terms.responder)) < MAX_ACCEPTED_RELAY_TICKETS_PER_RESPONDER
    ensures WithinLimits(tickets[id := t])
  {
    hide Count, EnvelopeBytes;
    BytesUpdate(tickets, id, t);
    assert tickets[id := t].Keys == tickets.Keys;
    forall i: PeerId
      ensures Count(tickets[id := t], FromInitiator(i)) <= MAX_PENDING_RELAY_TICKETS_PER_INITIATOR
    {
      CountUpdate(tickets, id, t, FromInitiator(i));
      assert Count(tickets, FromInitiator(i)) <= MAX_PENDING_RELAY_TICKETS_PER_INITIATOR;
    }
    forall r: PeerId
      ensures Count(tickets[id := t], AcceptedBy(r)) <= MAX_ACCEPTED_RELAY_TICKETS_PER_RESPONDER
    {
      CountUpdate(tickets, id, t, AcceptedBy(r));
      assert Count(tickets, AcceptedBy(r)) <= MAX_ACCEPTED_RELAY_TICKETS_PER_RESPONDER;
    }
  }

  lemma QueuedTail(queue: seq<Entry>, id: TicketId)
    requires Queued(queue, id) && queue[0].id != id
    ensures Queued(queue[1..], id)
  {
    var i :| 0 <= i < |queue| && queue[i].id == id;
    assert queue[1..][i - 1].id == id;
  }

  lemma QueuedSnoc(queue: seq<Entry>, e: Entry, id: TicketId)
    ensures Queued(queue + [e], id) <==> Queued(queue, id) || e.id == id
  {
    if Queued(queue, id) {
      var i :| 0 <= i < |queue| && queue[i].id == id;
      assert (queue + [e])[i].id == id;
    }
    assert (queue + [e])[|queue|] == e;
  }

  /** The head's id is on no other entry. */
  lemma HeadAlone(queue: seq<Entry>)
    requires queue != [] && Distinct(queue)
    ensures Distinct(queue[1..]) && !Queued(queue[1..], queue[0].id)
  {
  }

  lemma DistinctSnoc(queue: seq<Entry>, e: Entry)
    requires Distinct(queue) && !Queued(queue, e.id)
    ensures Distinct(queue + [e])
  {
  }

  lemma PopHeadQueueOk(b: Book, now: int)
    requires QueueOk(b) && TicketsOk(b.tickets) && HeadDue(b.queue, now)
    ensures QueueOk(PopHead(b, now))
  {
    hide Distinct, Queued;
    var b', id, rest := PopHead(b, now), b.queue[0].id, b.queue[1..];
    assert EntryOk(b.tickets, b.queue[0]);
    HeadAlone(b.queue);
    var e := Entry(now + RELAY_UPGRADE_RESERVATION_TIMEOUT, id);
    DistinctSnoc(rest, e);
    forall x | x in b'.tickets
      ensures Queued(b'.queue, x)
    {
      if x != id { QueuedTail(b.queue, x); }
      QueuedSnoc(rest, e, x);
    }
    PopHeadEntries(b, now);
  }

  lemma PopHeadEntries(b: Book, now: int)
    requires Distinct(b.queue) && EntriesOk(b.tickets, b.queue) && TicketsOk(b.tickets) && HeadDue(b.queue, now)
    ensures EntriesOk(PopHead(b, now).tickets, PopHead(b, now).queue)
  {
    var b', id := PopHead(b, now), b.queue[0].id;
    assert EntryOk(b.tickets, b.queue[0]);
    forall i | 0 <= i < |b'.queue| ensures EntryOk(b'.tickets, b'.queue[i]) {
      if i < |b.queue| - 1 {
        assert b'.queue[i] == b.queue[i + 1];
        assert EntryOk(b.tickets, b.queue[i + 1]);
      }
    }
  }

  lemma PopHeadInv(b: Book, now: int)
    requires Inv(b) && HeadDue(b.queue, now)
    ensures Inv(PopHead(b, now))
  {
    hide QueueOk, WithinLimits;
    PopHeadQueueOk(b, now);
    if b.queue[0].id in b.tickets { LimitsRemove(b.tickets, b.queue[0].id); }
  }

  lemma {:induction false} PrunedInv(b: Book, now: int)
    requires Inv(b)
    ensures Inv(Pruned(b, now))
    decreases Due(b.queue, now)
  {
    hide Inv;
    if HeadDue(b.queue, now) {
      PopHeadDue(b, now);
      PopHeadInv(b, now);
      PrunedInv(PopHead(b, now), now);
    }
  }

  lemma OfferQueueOk(b: Book, id: TicketId, t: Held)
    requires QueueOk(b) && id !in b.tickets && !t.accepted
    ensures QueueOk(Book(b.tickets[id := t], b.queue + [Entry(t.expiresAt, id)]))
  {
    hide Distinct;
    var tickets, e := b.tickets[id := t], Entry(t.expiresAt, id);
    assert !Queued(b.queue, id);
    DistinctSnoc(b.queue, e);
    forall x | x in tickets ensures Queued(b.queue + [e], x) { QueuedSnoc(b.queue, e, x); }
    forall i | 0 <= i < |b.queue + [e]| ensures EntryOk(tickets, (b.queue + [e])[i]) {
      assert i < |b.queue| ==> EntryOk(b.tickets, b.queue[i]) && b.queue[i].id != id;
    }
  }

  lemma OfferInv(b: Book, id: TicketId, terms: Terms, now: int)
    requires Inv(b) && EnvelopeOk(terms)
    ensures Inv(DoOffer(b, id, terms, now).0)
  {
    hide WithinLimits, Count, EnvelopeBytes, QueueOk;
    var (b', answer) := DoOffer(b, id, terms, now);
    if answer == Done {
      LimitsInsert(b.tickets, id, b'.tickets[id]);
      OfferQueueOk(b, id, b'.tickets[id]);
    }
  }

  /** A ticket changed in place, with what the queue and pairs rely on kept. */
  lemma UpdateInv(b: Book, id: TicketId, t: Held)
    requires Inv(b) && id in b.tickets && t.terms == b.tickets[id].terms && t.expiresAt == b.tickets[id].expiresAt
    requires b.tickets[id].accepted ==> t.accepted
    requires t.Reserved() ==> t.accepted
    requires WithinLimits(b.tickets[id := t])
    ensures Inv(b.(tickets := b.tickets[id := t]))
  {
    hide WithinLimits, Queued, Distinct;
    var tickets := b.tickets[id := t];
    forall i | 0 <= i < |b.queue| ensures EntryOk(tickets, b.queue[i]) {
      assert EntryOk(b.tickets, b.queue[i]);
    }
    assert AllQueued(tickets, b.queue);
    assert TicketsOk(tickets) by {
      hide EntriesOk, AllQueued;
      forall x, y | x in tickets && y in tickets && SamePair(tickets[x], tickets[y].terms) ensures x == y {
        assert SamePair(b.tickets[x], b.tickets[y].terms);
      }
    }
  }

  lemma StepInv(b: Book, op: Op)
    requires Inv(b)
    ensures Inv(Apply(b, op).0)
  {
    hide Inv, Pruned, Count;
    match op
    case Offer(id, terms, now) =>
      PrunedInv(b, now);
      if EnvelopeOk(terms) { OfferInv(Pruned(b, now), id, terms, now); }
    case Accept(id, who, now) =>
      PrunedInv(b, now);
      AcceptInv(Pruned(b, now), id, who);
    case Prune(now) =>
      PrunedInv(b, now);
    case SetSeat(id, role, seat) =>
      SeatInv(b, id, role, seat);
  }

  lemma AcceptInv(b: Book, id: TicketId, who: PeerId)
    requires Inv(b)
    ensures Inv(DoAccept(b, id, who).0)
  {
    hide WithinLimits, QueueOk, Count;
    if DoAccept(b, id, who).1 == Done {
      var t := b.tickets[id].(accepted := true);
      LimitsUpdate(b.tickets, id, t);
      UpdateInv(b, id, t);
    }
  }

  lemma SeatInv(b: Book, id: TicketId, role: Role, seat: Seat)
    requires Inv(b)
    ensures Inv(DoSetSeat(b, id, role, seat))
  {
    hide WithinLimits, QueueOk;
    if CanSeat(b, id, seat) {
      var t := b.tickets[id].WithSeat(role, seat);
      LimitsUpdate(b.tickets, id, t);
      UpdateInv(b, id, t);
    }
  }

  /** Whatever the clock readings, after every run each ticket has exactly one queue entry,
      no pair has two tickets and every limit holds. */
  lemma {:induction false} RunInv(ops: seq<Op>)
    ensures Inv(After(ops))
  {
    if ops == [] {
      Empties<TicketId, nat>();
      assert Sizes(map[]) == map[];
    } else {
      hide Inv, Apply;
      RunInv(ops[..|ops| - 1]);
      StepInv(After(ops[..|ops| - 1]), ops[|ops| - 1]);
    }
  }

  // ---------------------------------------------------------------- what a prune takes

  /** An entry is reached exactly when it and every entry before it is due. */
  lemma {:induction false} DueReaches(queue: seq<Entry>, now: int, i: nat)
    requires i < |queue|
    ensures i < Due(queue, now) <==> forall j :: 0 <= j <= i ==> queue[j].at <= now
  {
    if HeadDue(queue, now) && i > 0 {
      DueReaches(queue[1..], now, i - 1);
      assert forall j :: 0 <= j <= i - 1 ==> queue[1..][j] == queue[j + 1];
      assert forall j :: 0 < j <= i ==> queue[j] == queue[1..][j - 1];
    }
  }

  /** A prune removes exactly the unreserved tickets its due prefix reaches, all expired, and
      leaves every other ticket as it was. */
  lemma {:induction false} PruneExact(b: Book, now: int, i: nat)
    requires QueueOk(b) && TicketsOk(b.tickets) && i < |b.queue|
    ensures var id := b.queue[i].id;
            && id in b.tickets
            && (id in Pruned(b, now).tickets <==> i >= Due(b.queue, now) || b.tickets[id].Reserved())
            && (id in Pruned(b, now).tickets ==> Pruned(b, now).tickets[id] == b.tickets[id])
            && (id !in Pruned(b, now).tickets ==> b.tickets[id].expiresAt <= now)
    decreases Due(b.queue, now)
  {
    hide Queued, AllQueued, Distinct;
    assert EntryOk(b.tickets, b.queue[i]);
    if HeadDue(b.queue, now) {
      var b', id := PopHead(b, now), b.queue[i].id;
      assert EntryOk(b.tickets, b.queue[0]);
      PopHeadDue(b, now);
      PopHeadQueueOk(b, now);
      if i > 0 {
        HeadAlone(b.queue);
        NotHead(b.queue, i);
        assert b'.queue[i - 1] == b.queue[i];
        PruneExact(b', now, i - 1);
      } else if b.tickets[id].Reserved() {
        DueReaches(b'.queue, now, |b'.queue| - 1);
        PruneExact(b', now, |b'.queue| - 1);
      } else {
        PruneAddsNone(b', now);
      }
    }
  }

  lemma NotHead(queue: seq<Entry>, i: nat)
    requires Distinct(queue) && 0 < i < |queue|
    ensures queue[i].id != queue[0].id
  {
  }

  lemma {:induction false} PruneAddsNone(b: Book, now: int)
    ensures Pruned(b, now).tickets.Keys <= b.tickets.Keys
    decreases Due(b.queue, now)
  {
    if HeadDue(b.queue, now) {
      PopHeadDue(b, now);
      PruneAddsNone(PopHead(b, now), now);
    }
  }

  /** An expired offer outlives a prune exactly when an entry ahead of its own is not yet due. */
  lemma OfferOutlivesIff(b: Book, now: int, i: nat)
    requires Inv(b) && i < |b.queue|
    requires b.queue[i].id in b.tickets && !b.tickets[b.queue[i].id].accepted &&
             b.tickets[b.queue[i].id].expiresAt <= now
    ensures b.queue[i].id in Pruned(b, now).tickets <==> exists j :: 0 <= j < i && b.queue[j].at > now
  {
    hide Pruned, Due, WithinLimits, Distinct, AllQueued;
    PruneExact(b, now, i);
    DueReaches(b.queue, now, i);
    assert EntryOk(b.tickets, b.queue[i]);
  }

  // ---------------------------------------------------------------- with a clock that does not go back

  /** The operations' clock readings do not go back, and none is past `now`. */
  ghost predicate Steady(ops: seq<Op>, now: int) {
    if ops == [] then true
    else
      var init, last := ops[..|ops| - 1], ops[|ops| - 1];
      if last.SetSeat? then Steady(init, now) else last.now <= now && Steady(init, last.now)
  }

  /** No entry ahead of an unaccepted offer is due later than it. */
  ghost predicate OffersInOrder(b: Book) {
    forall i, j :: 0 <= i < j < |b.queue| ==> OrderedPair(b, i, j)
  }

  predicate OrderedPair(b: Book, i: nat, j: nat)
    requires i < j < |b.queue|
  {
    b.queue[j].id in b.tickets && !b.tickets[b.queue[j].id].accepted ==> b.queue[i].at <= b.queue[j].at
  }

  ghost predicate NoneBeyond(b: Book, now: int) {
    forall i :: 0 <= i < |b.queue| ==> b.queue[i].at <= now + RELAY_TICKET_TTL
  }

  ghost predicate InOrder(b: Book, now: int) { OffersInOrder(b) && NoneBeyond(b, now) }

  lemma PopHeadInOrder(b: Book, now: int)
    requires Inv(b) && HeadDue(b.queue, now) && InOrder(b, now)
    ensures InOrder(PopHead(b, now), now)
  {
    hide WithinLimits, AllQueued, Distinct;
    var b' := PopHead(b, now);
    assert EntryOk(b.tickets, b.queue[0]);
    forall i, j | 0 <= i < j < |b'.queue| ensures OrderedPair(b', i, j) {
      assert j < |b.queue| - 1 ==> OrderedPair(b, i + 1, j + 1);
    }
  }

  lemma {:induction false} PrunedInOrder(b: Book, now: int)
    requires Inv(b) && InOrder(b, now)
    ensures InOrder(Pruned(b, now), now)
    decreases Due(b.queue, now)
  {
    hide Inv, InOrder;
    if HeadDue(b.queue, now) {
      PopHeadDue(b, now);
      PopHeadInv(b, now);
      PopHeadInOrder(b, now);
      PrunedInOrder(PopHead(b, now), now);
    }
  }

  lemma OfferInOrder(b: Book, id: TicketId, terms: Terms, now: int)
    requires Inv(b) && InOrder(b, now)
    ensures InOrder(DoOffer(b, id, terms, now).0, now)
  {
    hide WithinLimits, Count, EnvelopeBytes, AllQueued, Distinct;
    var b' := DoOffer(b, id, terms, now).0;
    forall i, j | 0 <= i < j < |b'.queue| ensures OrderedPair(b', i, j) {
      assert j < |b.queue| ==> OrderedPair(b, i, j) && EntryOk(b.tickets, b.queue[j]);
    }
  }

  /** Accepting a ticket or changing a seat never brings an offer back to unaccepted. */
  lemma UpdateInOrder(b: Book, id: TicketId, t: Held, now: int)
    requires InOrder(b, now) && id in b.tickets && (b.tickets[id].accepted ==> t.accepted)
    ensures InOrder(b.(tickets := b.tickets[id := t]), now)
  {
    var b' := b.(tickets := b.tickets[id := t]);
    forall i, j | 0 <= i < j < |b'.queue| ensures OrderedPair(b', i, j) { assert OrderedPair(b, i, j); }
  }

  lemma LaterInOrder(b: Book, was: int, now: int)
    requires InOrder(b, was) && was <= now
    ensures InOrder(b, now)
  {
  }

  lemma StepInOrder(b: Book, op: Op, now: int)
    requires Inv(b) && InOrder(b, now) && (op.SetSeat? || op.now == now)
    ensures InOrder(Apply(b, op).0, now)
  {
    hide Inv, InOrder, Pruned, Count;
    if !op.SetSeat? {
      PrunedInv(b, now);
      PrunedInOrder(b, now);
    }
    match op
    case Offer(id, terms, _) =>
      OfferInOrder(Pruned(b, now), id, terms, now);
    case Accept(id, who, _) =>
      if DoAccept(Pruned(b, now), id, who).1 == Done {
        UpdateInOrder(Pruned(b, now), id, Pruned(b, now).tickets[id].(accepted := true), now);
      }
    case Prune(_) =>
    case SetSeat(id, role, seat) =>
      if CanSeat(b, id, seat) { UpdateInOrder(b, id, b.tickets[id].WithSeat(role, seat), now); }
  }

  lemma {:induction false} RunInOrder(ops: seq<Op>, now: int)
    requires Steady(ops, now)
    ensures InOrder(After(ops), now)
  {
    if ops != [] {
      hide Inv, InOrder, Apply;
      var init, last := ops[..|ops| - 1], ops[|ops| - 1];
      RunInv(init);
      var at := if last.SetSeat? then now else last.now;
      RunInOrder(init, at);
      StepInOrder(After(init), last, at);
      LaterInOrder(After(ops), at, now);
    }
  }

  /** With such a clock no expired offer outlives a prune. */
  lemma NoExpiredOffer(ops: seq<Op>, now: int)
    requires Steady(ops, now)
    ensures forall id :: id in Pruned(After(ops), now).tickets && !Pruned(After(ops), now).tickets[id].accepted ==>
                           Pruned(After(ops), now).tickets[id].expiresAt > now
  {
    hide After, Pruned, Steady, Due, WithinLimits, Distinct;
    var b := After(ops);
    RunInv(ops);
    RunInOrder(ops, now);
    forall id | id in Pruned(b, now).tickets && !Pruned(b, now).tickets[id].accepted
      ensures Pruned(b, now).tickets[id].expiresAt > now
    {
      PruneAddsNone(b, now);
      assert Queued(b.queue, id);
      var i :| 0 <= i < |b.queue| && b.queue[i].id == id;
      PruneExact(b, now, i);
      DueReaches(b.queue, now, i);
      assert EntryOk(b.tickets, b.queue[i]);
      assert !b.tickets[id].Reserved();
      var j :| 0 <= j <= i && b.queue[j].at > now;
      assert j < i ==> OrderedPair(b, j, i);
    }
  }

  /** So an offer is only ever accepted by its responder, unexpired and for the first time. */
  lemma ExpiredNeverAccepted(ops: seq<Op>, id: TicketId, who: PeerId, now: int)
    requires Steady(ops, now)
    requires Apply(After(ops), Op.Accept(id, who, now)).1 == Done
    ensures id in After(ops).tickets
    ensures var t := After(ops).tickets[id]; t.expiresAt > now && !t.accepted && t.terms.responder == who
  {
    hide After, Pruned, Steady, Due, WithinLimits, Distinct, Count;
    var b := After(ops);
    NoExpiredOffer(ops, now);
    RunInv(ops);
    PruneAddsNone(b, now);
    assert Queued(b.queue, id);
    var i :| 0 <= i < |b.queue| && b.queue[i].id == id;
    PruneExact(b, now, i);
  }

  /** Two offers whose clock was read in one order and the lock taken in the other: the first
      in the queue keeps the second from being pruned, and the second is accepted at the very
      instant it expires. */
  lemma SwappedReadingsAcceptExpired(first: Terms, second: Terms)
    requires EnvelopeOk(first) && EnvelopeOk(second)
    requires first.initiator != second.initiator
    ensures var b := After([Op.Offer(1, first, 11), Op.Offer(2, second, 10)]);
            && 2 in b.tickets && b.tickets[2].expiresAt == 100
            && Apply(b, Op.Accept(2, second.responder, 100)).1 == Done
  {
    hide Sizes, Count;
    var ops := [Op.Offer(1, first, 11), Op.Offer(2, second, 10)];
    assert ops[..1] == [ops[0]] && ops[..1][..0] == [];
    var t1 := Held(first, false, Seat(false, None), Seat(false, None), 101);
    var t2 := Held(second, false, Seat(false, None), Seat(false, None), 100);
    NoTotals();
    assert After([]) == EMPTY;
    var b1 := Book(EMPTY.tickets[1 := t1], EMPTY.queue + [Entry(101, 1)]);
    assert Apply(EMPTY, ops[0]) == (b1, Done);
    BytesInsert(EMPTY.tickets, 1, t1);
    CountInsert(EMPTY.tickets, 1, t1, FromInitiator(second.initiator));
    CountInsert(EMPTY.tickets, 1, t1, AcceptedBy(second.responder));
    assert !PairTaken(b1.tickets, second);
    var b := Book(b1.tickets[2 := t2], b1.queue + [Entry(100, 2)]);
    assert Apply(b1, ops[1]) == (b, Done);
    CountInsert(b1.tickets, 2, t2, AcceptedBy(second.responder));
  }

  lemma NoTotals()
    ensures EnvelopeBytes(EMPTY.tickets) == 0
    ensures forall p :: Count(EMPTY.tickets, p) == 0
  {
    Empties<TicketId, nat>();
    assert Sizes(EMPTY.tickets) == map[];
    forall p ensures Count(EMPTY.tickets, p) == 0 { assert Matching(EMPTY.tickets, p) == {}; }
  }

  // ---------------------------------------------------------------- what is granted

  function Offered(terms: Terms, now: int): Held {
    Held(terms, false, Seat(false, None), Seat(false, None), now + RELAY_TICKET_TTL)
  }

  lemma LimitsAfterOffer(tickets: map<TicketId, Held>, id: TicketId, t: Held)
    requires WithinLimits(tickets) && id !in tickets && !t.accepted
    ensures WithinLimits(tickets[id := t]) <==>
            && |tickets| < MAX_RELAY_TICKETS
            && EnvelopeBytes(tickets) + |t.terms.envelope| <= MAX_RELAY_TICKET_ENVELOPE_BYTES
            && Count(tickets, FromInitiator(t.terms.initiator)) < MAX_PENDING_RELAY_TICKETS_PER_INITIATOR
  {
    hide Count, EnvelopeBytes;
    if WithinLimits(tickets[id := t]) {
      BytesInsert(tickets, id, t);
      CountInsert(tickets, id, t, FromInitiator(t.terms.initiator));
      assert tickets[id := t].Keys == tickets.Keys + {id};
      assert Count(tickets[id := t], FromInitiator(t.terms.initiator)) <= MAX_PENDING_RELAY_TICKETS_PER_INITIATOR;
    } else if |tickets| < MAX_RELAY_TICKETS
              && EnvelopeBytes(tickets) + |t.terms.envelope| <= MAX_RELAY_TICKET_ENVELOPE_BYTES
              && Count(tickets, FromInitiator(t.terms.initiator)) < MAX_PENDING_RELAY_TICKETS_PER_INITIATOR {
      LimitsInsert(tickets, id, t);
    }
  }

  lemma PairsAfterOffer(tickets: map<TicketId, Held>, id: TicketId, t: Held)
    requires TicketsOk(tickets) && id !in tickets && !t.Reserved()
    ensures TicketsOk(tickets[id := t]) <==> EnvelopeOk(t.terms) && !PairTaken(tickets, t.terms)
  {
    var tickets' := tickets[id := t];
    if TicketsOk(tickets') {
      assert EnvelopeOk(tickets'[id].terms);
      forall x | x in tickets ensures !SamePair(tickets[x], t.terms) {
        assert SamePair(tickets'[x], tickets'[id].terms) ==> x == id;
      }
    } else if EnvelopeOk(t.terms) && !PairTaken(tickets, t.terms) {
      forall x, y | x in tickets' && y in tickets' && SamePair(tickets'[x], tickets'[y].terms) ensures x == y {
        if x == id && y != id { assert SamePair(tickets[y], t.terms); }
      }
    }
  }

  /** An offer is taken exactly when its id is free and the book with it added keeps every limit and
      one ticket to a pair; and then the book is just that: the terms as offered, everyone else's
      ticket untouched. */
  lemma OfferTakenIff(b: Book, id: TicketId, terms: Terms, now: int)
    requires Inv(b)
    ensures var (b', answer) := Apply(b, Op.Offer(id, terms, now));
            var tickets, t := Pruned(b, now).tickets, Offered(terms, now);
            && (answer == Done <==> id !in tickets && WithinLimits(tickets[id := t]) && TicketsOk(tickets[id := t]))
            && b'.tickets == if answer == Done then tickets[id := t]
                             else if EnvelopeOk(terms) then tickets else b.tickets
  {
    hide Pruned, Inv, WithinLimits, TicketsOk, DoOffer;
    PrunedInv(b, now);
    var p, t := Pruned(b, now), Offered(terms, now);
    if EnvelopeOk(terms) { DoOfferTakenIff(p, id, terms, now); } else if id !in p.tickets { BadEnvelope(p, id, t); }
  }

  lemma BadEnvelope(b: Book, id: TicketId, t: Held)
    requires !EnvelopeOk(t.terms)
    ensures !TicketsOk(b.tickets[id := t])
  {
    assert !EnvelopeOk(b.tickets[id := t][id].terms);
  }

  lemma DoOfferTakenIff(b: Book, id: TicketId, terms: Terms, now: int)
    requires Inv(b) && EnvelopeOk(terms)
    ensures var (b', answer) := DoOffer(b, id, terms, now);
            var t := Offered(terms, now);
            && (answer == Done <==>
                  id !in b.tickets && WithinLimits(b.tickets[id := t]) && TicketsOk(b.tickets[id := t]))
            && b'.tickets == if answer == Done then b.tickets[id := t] else b.tickets
  {
    hide WithinLimits, TicketsOk, QueueOk, Count, EnvelopeBytes, PairTaken;
    if id !in b.tickets {
      LimitsAfterOffer(b.tickets, id, Offered(terms, now));
      PairsAfterOffer(b.tickets, id, Offered(terms, now));
    }
  }

  lemma LimitsAfterAccept(tickets: map<TicketId, Held>, id: TicketId)
    requires WithinLimits(tickets) && id in tickets && !tickets[id].accepted
    ensures WithinLimits(tickets[id := tickets[id].(accepted := true)]) <==>
            Count(tickets, AcceptedBy(tickets[id].terms.responder)) < MAX_ACCEPTED_RELAY_TICKETS_PER_RESPONDER
  {
    hide Count, EnvelopeBytes;
    var t := tickets[id].(accepted := true);
    if WithinLimits(tickets[id := t]) {
      CountUpdate(tickets, id, t, AcceptedBy(t.terms.responder));
      assert Count(tickets[id := t], AcceptedBy(t.terms.responder)) <= MAX_ACCEPTED_RELAY_TICKETS_PER_RESPONDER;
    } else if Count(tickets, AcceptedBy(t.terms.responder)) < MAX_ACCEPTED_RELAY_TICKETS_PER_RESPONDER {
      LimitsUpdate(tickets, id, t);
    }
  }

  /** An accept succeeds exactly for the responder of a ticket still there and not accepted, when the
      limits stand with it accepted; and then nothing but that has changed. */
  lemma AcceptTakenIff(b: Book, id: TicketId, who: PeerId, now: int)
    requires Inv(b)
    ensures var (b', answer) := Apply(b, Op.Accept(id, who, now));
            var tickets := Pruned(b, now).tickets;
            && (answer == Done <==>
                  && id in tickets && tickets[id].terms.responder == who && !tickets[id].accepted
                  && WithinLimits(tickets[id := tickets[id].(accepted := true)]))
            && b'.tickets == if answer == Done then tickets[id := tickets[id].(accepted := true)] else tickets
  {
    PrunedInv(b, now);
    hide Pruned, WithinLimits, TicketsOk, QueueOk, Count;
    var p := Pruned(b, now);
    if id in p.tickets && !p.tickets[id].accepted { LimitsAfterAccept(p.tickets, id); }
  }

  /** An offer accepted before it expires is there for both to join until then. */
  lemma OfferedThenAccepted(b: Book, id: TicketId, terms: Terms, now: int, later: int)
    requires Inv(b) && Apply(b, Op.Offer(id, terms, now)).1 == Done
    requires now <= later < now + RELAY_TICKET_TTL
    requires var b' := Apply(b, Op.Offer(id, terms, now)).0;
             Count(Pruned(b', later).tickets, AcceptedBy(terms.responder)) < MAX_ACCEPTED_RELAY_TICKETS_PER_RESPONDER
    ensures var b' := Apply(b, Op.Offer(id, terms, now)).0;
            var (b'', answer) := Apply(b', Op.Accept(id, terms.responder, later));
            && answer == Done && id in b''.tickets
            && b''.tickets[id] == Offered(terms, now).(accepted := true)
  {
    var b' := Apply(b, Op.Offer(id, terms, now)).0;
    StepInv(b, Op.Offer(id, terms, now));
    OfferTakenIff(b, id, terms, now);
    hide Pruned, Count, WithinLimits, Distinct, EntriesOk, Due, Apply;
    assert Queued(b'.queue, id);
    var i :| 0 <= i < |b'.queue| && b'.queue[i].id == id;
    PruneExact(b', later, i);
    PrunedInv(b', later);
    LimitsAfterAccept(Pruned(b', later).tickets, id);
    AcceptTakenIff(b', id, terms.responder, later);
  }
}
