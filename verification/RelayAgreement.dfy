/**
 The two accounts of a relay ticket tell one story: what the ticket book does is a run of the
 slot machine's steps, and what the slot machine does to a seat is an operation of the book.
 */
module RelayAgreement {
  import opened Options
  import opened RelayTicketSpec
  import Slots = RelaySlots

  /** A ticket as the slot machine sees it. */
  function View(t: Held): Slots.Ticket { Slots.Ticket(t.accepted, t.expiresAt, t.initiator, t.responder) }

  function Views(tickets: map<Slots.TicketId, Held>): map<Slots.TicketId, Slots.Ticket> {
    map id | id in tickets :: View(tickets[id])
  }

  ghost predicate Agree(b: Book, s: Slots.Relay) { s.tickets == Views(b.tickets) }

  /** These steps, each of them possible, take `s` to `s'`. */
  ghost predicate Runs(s: Slots.Relay, netOf: Slots.Ip -> Slots.Network, steps: seq<Slots.Step>, s': Slots.Relay)
    decreases |steps|
  {
    if steps == [] then s' == s
    else Slots.Enabled(s, steps[0]) && Runs(Slots.Next(s, netOf, steps[0]), netOf, steps[1..], s')
  }

  lemma RunsNone(s: Slots.Relay, netOf: Slots.Ip -> Slots.Network)
    ensures Runs(s, netOf, [], s)
  {
  }

  lemma RunsOne(s: Slots.Relay, netOf: Slots.Ip -> Slots.Network, a: Slots.Step)
    requires Slots.Enabled(s, a)
    ensures Runs(s, netOf, [a], Slots.Next(s, netOf, a))
  {
  }

  lemma RunsTwo(s: Slots.Relay, netOf: Slots.Ip -> Slots.Network, a: Slots.Step, b: Slots.Step)
    requires Slots.Enabled(s, a) && Slots.Enabled(Slots.Next(s, netOf, a), b)
    ensures Runs(s, netOf, [a, b], Slots.Next(Slots.Next(s, netOf, a), netOf, b))
  {
    assert [a, b][1..] == [b];
    RunsOne(Slots.Next(s, netOf, a), netOf, b);
  }

  ghost function DropOf(b: Book, now: int): Slots.Step {
    Slots.Drop(b.tickets.Keys - Pruned(b, now).tickets.Keys)
  }

  /** A prune drops no ticket with a reservation outstanding and leaves the others alone. */
  lemma PrunedTickets(b: Book, now: int)
    requires Inv(b)
    ensures Pruned(b, now).tickets.Keys <= b.tickets.Keys
    ensures forall id :: id in b.tickets ==>
              if id in Pruned(b, now).tickets then Pruned(b, now).tickets[id] == b.tickets[id]
              else !b.tickets[id].Reserved()
  {
    hide Pruned, WithinLimits, Distinct, EntriesOk, Due;
    PruneAddsNone(b, now);
    forall id | id in b.tickets
      ensures if id in Pruned(b, now).tickets then Pruned(b, now).tickets[id] == b.tickets[id]
              else !b.tickets[id].Reserved()
    {
      assert Queued(b.queue, id);
      var i :| 0 <= i < |b.queue| && b.queue[i].id == id;
      PruneExact(b, now, i);
    }
  }

  /** So a prune is a step the slot machine allows. */
  lemma PruneIsDrop(b: Book, s: Slots.Relay, netOf: Slots.Ip -> Slots.Network, now: int)
    requires Inv(b) && Agree(b, s)
    ensures Slots.Enabled(s, DropOf(b, now))
    ensures Agree(Pruned(b, now), Slots.Next(s, netOf, DropOf(b, now)))
  {
    hide Pruned, Inv;
    PrunedTickets(b, now);
  }

  lemma OfferIsStep(b: Book, s: Slots.Relay, netOf: Slots.Ip -> Slots.Network,
                    id: Slots.TicketId, terms: Terms, now: int)
    requires Agree(b, s)
    ensures var (b', answer) := DoOffer(b, id, terms, now);
            Agree(b', if answer == Done then Slots.Next(s, netOf, Slots.Step.Offer(id, now + RELAY_TICKET_TTL)) else s)
  {
    hide Count, EnvelopeBytes, PairTaken;
  }

  lemma AcceptIsStep(b: Book, s: Slots.Relay, netOf: Slots.Ip -> Slots.Network, id: Slots.TicketId, who: PeerId)
    requires Agree(b, s)
    ensures var (b', answer) := DoAccept(b, id, who);
            Agree(b', if answer == Done then Slots.Next(s, netOf, Slots.Step.Accept(id)) else s)
  {
    hide Count;
  }

  /** Every offer, accept and prune of the book is a drop followed by at most one step of the
      slot machine, which ends with the same tickets. */
  lemma OpIsSteps(b: Book, s: Slots.Relay, netOf: Slots.Ip -> Slots.Network, op: Op)
    returns (steps: seq<Slots.Step>, s': Slots.Relay)
    requires Inv(b) && Agree(b, s) && !op.SetSeat?
    ensures Runs(s, netOf, steps, s') && Agree(Apply(b, op).0, s')
    ensures forall i :: 0 <= i < |steps| ==> steps[i].Drop? || steps[i].Offer? || steps[i].Accept?
  {
    hide Pruned, Inv, Agree, Runs, DoOffer, DoAccept, Slots.Next;
    var pruned, drop := Pruned(b, op.now), DropOf(b, op.now);
    PruneIsDrop(b, s, netOf, op.now);
    RunsNone(s, netOf);
    RunsOne(s, netOf, drop);
    var dropped := Slots.Next(s, netOf, drop);
    steps, s' := [drop], dropped;
    match op
    case Offer(id, terms, now) =>
      OfferIsStep(pruned, dropped, netOf, id, terms, now);
      if !EnvelopeOk(terms) {
        steps, s' := [], s;
      } else if DoOffer(pruned, id, terms, now).1 == Done {
        var offer := Slots.Step.Offer(id, now + RELAY_TICKET_TTL);
        RunsTwo(s, netOf, drop, offer);
        steps, s' := [drop, offer], Slots.Next(dropped, netOf, offer);
      }
    case Accept(id, who, now) =>
      AcceptIsStep(pruned, dropped, netOf, id, who);
      if DoAccept(pruned, id, who).1 == Done {
        var accept := Slots.Step.Accept(id);
        RunsTwo(s, netOf, drop, accept);
        steps, s' := [drop, accept], Slots.Next(dropped, netOf, accept);
      }
    case Prune(now) =>
  }

  /** Every other step of the slot machine changes at most one seat, as the book allows. */
  lemma StepIsSeat(b: Book, s: Slots.Relay, netOf: Slots.Ip -> Slots.Network, step: Slots.Step)
    returns (ops: seq<Op>)
    requires Agree(b, s) && Slots.Enabled(s, step) && !step.Drop? && !step.Offer? && !step.Accept?
    ensures |ops| <= 1 && (forall op :: op in ops ==> op.SetSeat? && CanSeat(b, op.id, op.seat))
    ensures Agree(if ops == [] then b else Apply(b, ops[0]).0, Slots.Next(s, netOf, step))
  {
    ops := [];
    match step
    case Reserve(place, ip, now) =>
      if Slots.CanReserve(s, netOf, place, ip, now) {
        ops := [SetSeat(place.ticketId, place.role, Slots.Seat(false, Some(s.nextId)))];
      }
    case CommitTake(res) =>
      if Slots.CanCommit(s, res) {
        var place := s.issued[res].place;
        ops := [SetSeat(place.ticketId, place.role, Slots.Seat(true, None))];
      }
    case Rollback(res) =>
      if Slots.Outstanding(s, res) {
        var place := s.issued[res].place;
        ops := [SetSeat(place.ticketId, place.role, Slots.SeatAt(s, place).value.(reservation := None))];
      }
    case _ =>
  }
}
