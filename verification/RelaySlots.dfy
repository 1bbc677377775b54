/**
 Relay admission as its lock steps, interleaved in any order.

 A join reserves capacity and a role of a ticket under both locks. The upgrade
 callback then commits it in two lock holds (ticket, then admissions), or the
 watchdog rolls it back in two (ticket, then counts); a socket's end, a panic
 and the sweeper all release an admission in two (admissions, then counts).
 */
module RelaySlots {
  import opened Options
  import opened MapSum

  const MAX_RELAY_SESSIONS_PER_NETWORK: nat := 32
  const MAX_GLOBAL_RELAY_SESSIONS: nat := 200

  type TicketId = nat
  type Ip = nat
  type Network = nat

  datatype Role = Initiator | Responder

  datatype Seat = Seat(joined: bool, reservation: Option<nat>)

  datatype Ticket = Ticket(accepted: bool, expiresAt: int, initiator: Seat, responder: Seat) {
    function SeatOf(role: Role): Seat { if role == Initiator then initiator else responder }

    function WithSeat(role: Role, seat: Seat): Ticket {
      if role == Initiator then this.(initiator := seat) else this.(responder := seat)
    }

    predicate Reserved() { initiator.reservation.Some? || responder.reservation.Some? }
  }

  datatype Place = Place(ticketId: TicketId, role: Role)

  /** What a reserve hands out; the upgrade callback and the watchdog both hold it. */
  datatype Reservation = Reservation(place: Place, ip: Ip)

  datatype Relay = Relay(
    tickets: map<TicketId, Ticket>,
    counts: map<Network, nat>,
    admissions: map<Place, Ip>,
    /** Every reservation handed out, by its id. */
    issued: map<nat, Reservation>,
    nextId: nat,
    /** Commits past the ticket lock, not yet in `admissions`. */
    committing: map<nat, Reservation>,
    /** Networks of slots given up, not yet taken off `counts`. */
    releasing: multiset<Network>)

  const START := Relay(map[], map[], map[], map[], 0, map[], multiset{})

  datatype Step =
    | Offer(id: TicketId, expiresAt: int)
    | Accept(id: TicketId)
    /** A prune: some expired tickets go, none of them reserved. */
    | Drop(ids: set<TicketId>)
    | Reserve(place: Place, ip: Ip, now: int)
    | CommitTake(res: nat)
    | CommitLand(res: nat)
    | Rollback(res: nat)
    | Cleanup(place: Place)
    | CleanupAll(id: TicketId)
    | Release(network: Network)

  // ---------------------------------------------------------------- steps

  function SeatAt(s: Relay, place: Place): Option<Seat> {
    if place.ticketId in s.tickets then Some(s.tickets[place.ticketId].SeatOf(place.role)) else None
  }

  function SetSeat(s: Relay, place: Place, seat: Seat): Relay
    requires place.ticketId in s.tickets
  {
    s.(tickets := s.tickets[place.ticketId := s.tickets[place.ticketId].WithSeat(place.role, seat)])
  }

  predicate Enabled(s: Relay, step: Step) {
    match step
    case Drop(ids) => forall id :: id in ids && id in s.tickets ==> !s.tickets[id].Reserved()
    case CommitTake(res) => res in s.issued
    case CommitLand(res) => res in s.committing
    case Rollback(res) => res in s.issued
    case Release(network) => network in s.releasing
    case _ => true
  }

  ghost predicate CanReserve(s: Relay, netOf: Ip -> Network, place: Place, ip: Ip, now: int) {
    && place.ticketId in s.tickets
    && s.tickets[place.ticketId].expiresAt > now
    && s.tickets[place.ticketId].accepted
    && SeatAt(s, place) == Some(Seat(false, None))
    && Sum(s.counts) < MAX_GLOBAL_RELAY_SESSIONS
    && Get(s.counts, netOf(ip)) < MAX_RELAY_SESSIONS_PER_NETWORK
  }

  predicate Outstanding(s: Relay, res: nat)
    requires res in s.issued
  {
    SeatAt(s, s.issued[res].place).Some? && SeatAt(s, s.issued[res].place).value.reservation == Some(res)
  }

  predicate CanCommit(s: Relay, res: nat)
    requires res in s.issued
  {
    Outstanding(s, res) && !SeatAt(s, s.issued[res].place).value.joined
  }

  /** The counter loses one, at zero the network's entry goes, and it never goes below zero. */
  function Released(counts: map<Network, nat>, network: Network): map<Network, nat> {
    if network !in counts then counts
    else if counts[network] <= 1 then counts - {network}
    else counts[network := counts[network] - 1]
  }

  function Leave(s: Relay, netOf: Ip -> Network, place: Place): Relay {
    if place in s.admissions then
      s.(admissions := s.admissions - {place}, releasing := s.releasing + multiset{netOf(s.admissions[place])})
    else s
  }

  ghost function DoReserve(s: Relay, netOf: Ip -> Network, place: Place, ip: Ip, now: int): Relay {
    var id := s.nextId;
    if !CanReserve(s, netOf, place, ip, now) then s.(nextId := id + 1)
    else
      SetSeat(s, place, Seat(false, Some(id))).(
        counts := s.counts[netOf(ip) := Get(s.counts, netOf(ip)) + 1],
        issued := s.issued[id := Reservation(place, ip)],
        nextId := id + 1)
  }

  function DoCommitTake(s: Relay, res: nat): Relay
    requires res in s.issued
  {
    if !CanCommit(s, res) then s
    else SetSeat(s, s.issued[res].place, Seat(true, None)).(committing := s.committing[res := s.issued[res]])
  }

  function DoCommitLand(s: Relay, res: nat): Relay
    requires res in s.committing
  {
    var r := s.committing[res];
    s.(admissions := s.admissions[r.place := r.ip], committing := s.committing - {res})
  }

  function DoRollback(s: Relay, netOf: Ip -> Network, res: nat): Relay
    requires res in s.issued
  {
    if !Outstanding(s, res) then s
    else
      var r := s.issued[res];
      SetSeat(s, r.place, SeatAt(s, r.place).value.(reservation := None)).(
        releasing := s.releasing + multiset{netOf(r.ip)})
  }

  function DoTickets(s: Relay, step: Step): map<TicketId, Ticket>
    requires step.Offer? || step.Accept? || step.Drop?
  {
    match step
    case Offer(id, expiresAt) =>
      if id in s.tickets then s.tickets
      else s.tickets[id := Ticket(false, expiresAt, Seat(false, None), Seat(false, None))]
    case Accept(id) =>
      if id in s.tickets then s.tickets[id := s.tickets[id].(accepted := true)] else s.tickets
    case Drop(ids) => s.tickets - ids
  }

  function DoRelease(s: Relay, network: Network): Relay {
    s.(counts := Released(s.counts, network), releasing := s.releasing - multiset{network})
  }

  ghost function Next(s: Relay, netOf: Ip -> Network, step: Step): Relay
    requires Enabled(s, step)
  {
    match step
    case Offer(_, _) => s.(tickets := DoTickets(s, step))
    case Accept(_) => s.(tickets := DoTickets(s, step))
    case Drop(_) => s.(tickets := DoTickets(s, step))
    case Reserve(place, ip, now) => DoReserve(s, netOf, place, ip, now)
    case CommitTake(res) => DoCommitTake(s, res)
    case CommitLand(res) => DoCommitLand(s, res)
    case Rollback(res) => DoRollback(s, netOf, res)
    case Cleanup(place) => Leave(s, netOf, place)
    case CleanupAll(id) => Leave(Leave(s, netOf, Place(id, Initiator)), netOf, Place(id, Responder))
    case Release(network) => DoRelease(s, network)
  }

  // ---------------------------------------------------------------- conservation

  /** The network of each seat's outstanding reservation. */
  ghost function ReservedNets(tickets: map<TicketId, Ticket>, issued: map<nat, Reservation>,
                              netOf: Ip -> Network): map<Place, Network> {
    map id, role | id in tickets && role in {Initiator, Responder} &&
                   tickets[id].SeatOf(role).reservation.Some? &&
                   tickets[id].SeatOf(role).reservation.value in issued ::
      Place(id, role) := netOf(issued[tickets[id].SeatOf(role).reservation.value].ip)
  }

  ghost function CommittingNets(committing: map<nat, Reservation>, netOf: Ip -> Network): map<nat, Network> {
    map res | res in committing :: netOf(committing[res].ip)
  }

  ghost function AdmittedNets(admissions: map<Place, Ip>, netOf: Ip -> Network): map<Place, Network> {
    map place | place in admissions :: netOf(admissions[place])
  }

  /** Every slot in use: reserved, caught between two locks either way, or admitted. */
  ghost function Held(s: Relay, netOf: Ip -> Network): multiset<Network> {
    Tally(ReservedNets(s.tickets, s.issued, netOf)) + Tally(CommittingNets(s.committing, netOf)) +
    Tally(AdmittedNets(s.admissions, netOf)) + s.releasing
  }

  /** Each network's count is its slots in use and those in `lost`, which nothing holds any more. */
  ghost predicate Balanced(s: Relay, netOf: Ip -> Network, lost: multiset<Network>) {
    forall n: Network :: Get(s.counts, n) == Held(s, netOf)[n] + lost[n]
  }

  ghost predicate Conserved(s: Relay, netOf: Ip -> Network) { Balanced(s, netOf, multiset{}) }

  /** The slot a landing commit takes the record of, if its place is not free. */
  function Overwritten(s: Relay, netOf: Ip -> Network, res: nat): multiset<Network>
    requires res in s.committing
  {
    var place := s.committing[res].place;
    if place in s.admissions then multiset{netOf(s.admissions[place])} else multiset{}
  }

  // ---------------------------------------------------------------- invariant

  /** Reservations on record, and the seats they are for. */
  ghost predicate SeatsOk(s: Relay) {
    && (forall res :: res in s.issued ==> res < s.nextId)
    && (forall id, role :: id in s.tickets && s.tickets[id].SeatOf(role).reservation.Some? ==>
          var res := s.tickets[id].SeatOf(role).reservation.value;
          res in s.issued && s.issued[res].place == Place(id, role))
    && (forall res :: res in s.committing ==> res in s.issued && s.committing[res] == s.issued[res])
  }

  /** Whether a socket under this place is admitted or on its way to be. */
  ghost predicate Open(s: Relay, place: Place) {
    place in s.admissions || exists res :: res in s.committing && s.committing[res].place == place
  }

  /** An open place's seat is joined, and a commit under way lands on a free place. */
  ghost predicate PlacesOk(s: Relay) {
    && (forall place :: Open(s, place) && place.ticketId in s.tickets ==> SeatAt(s, place).value.joined)
    && (forall res :: res in s.committing ==> s.committing[res].place !in s.admissions)
    && (forall a, b :: a in s.committing && b in s.committing && s.committing[a].place == s.committing[b].place ==>
          a == b)
  }

  ghost predicate CapsHold(s: Relay) {
    && Sum(s.counts) <= MAX_GLOBAL_RELAY_SESSIONS
    && forall n: Network :: Get(s.counts, n) <= MAX_RELAY_SESSIONS_PER_NETWORK
  }

  ghost predicate BooksOk(s: Relay) { SeatsOk(s) && PlacesOk(s) }

  /** A ticket id comes back only when no socket is open under it. */
  ghost predicate NoReuse(s: Relay, step: Step) {
    step.Offer? && step.id !in s.tickets ==> !Open(s, Place(step.id, Initiator)) && !Open(s, Place(step.id, Responder))
  }

  // ---------------------------------------------------------------- what each step does to the books

  /** Emptying a seat takes its reservation off, and no other. */
  lemma SeatEmptied(tickets: map<TicketId, Ticket>, issued: map<nat, Reservation>, netOf: Ip -> Network, place: Place,
                    seat: Seat)
    requires place.ticketId in tickets && seat.reservation.None?
    ensures var tickets' := tickets[place.ticketId := tickets[place.ticketId].WithSeat(place.role, seat)];
            ReservedNets(tickets', issued, netOf) == ReservedNets(tickets, issued, netOf) - {place}
  {
    hide ReservedNets;
    var tickets' := tickets[place.ticketId := tickets[place.ticketId].WithSeat(place.role, seat)];
    var nets, nets' := ReservedNets(tickets, issued, netOf), ReservedNets(tickets', issued, netOf);
    forall p: Place
      ensures p in nets' <==> p in nets - {place}
      ensures p in nets' ==> nets'[p] == nets[p]
    {
      ReservedAt(tickets, issued, netOf, p);
      ReservedAt(tickets', issued, netOf, p);
    }
  }

  lemma ReservedAt(tickets: map<TicketId, Ticket>, issued: map<nat, Reservation>, netOf: Ip -> Network, p: Place)
    ensures var nets := ReservedNets(tickets, issued, netOf);
            && (p in nets <==> && p.ticketId in tickets && tickets[p.ticketId].SeatOf(p.role).reservation.Some?
                               && tickets[p.ticketId].SeatOf(p.role).reservation.value in issued)
            && (p in nets ==> nets[p] == netOf(issued[tickets[p.ticketId].SeatOf(p.role).reservation.value].ip))
  {
    assert p.role == Initiator || p.role == Responder;
    assert p == Place(p.ticketId, p.role);
  }

  lemma TakeSeat(tickets: map<TicketId, Ticket>, issued: map<nat, Reservation>, netOf: Ip -> Network, place: Place,
                 seat: Seat)
    requires place.ticketId in tickets
    requires place in ReservedNets(tickets, issued, netOf) && seat.reservation.None?
    ensures var tickets' := tickets[place.ticketId := tickets[place.ticketId].WithSeat(place.role, seat)];
            Tally(ReservedNets(tickets, issued, netOf)) ==
            Tally(ReservedNets(tickets', issued, netOf)) + multiset{ReservedNets(tickets, issued, netOf)[place]}
  {
    hide Tally, ReservedNets;
    SeatEmptied(tickets, issued, netOf, place, seat);
    TallyRemove(ReservedNets(tickets, issued, netOf), place);
  }

  lemma TakeCommitting(m: map<nat, Reservation>, netOf: Ip -> Network, res: nat)
    requires res in m
    ensures Tally(CommittingNets(m, netOf)) == Tally(CommittingNets(m - {res}, netOf)) + multiset{netOf(m[res].ip)}
  {
    assert CommittingNets(m - {res}, netOf) == CommittingNets(m, netOf) - {res};
    TallyRemove(CommittingNets(m, netOf), res);
  }

  lemma TakeAdmitted(m: map<Place, Ip>, netOf: Ip -> Network, place: Place)
    requires place in m
    ensures Tally(AdmittedNets(m, netOf)) == Tally(AdmittedNets(m - {place}, netOf)) + multiset{netOf(m[place])}
  {
    assert AdmittedNets(m - {place}, netOf) == AdmittedNets(m, netOf) - {place};
    TallyRemove(AdmittedNets(m, netOf), place);
  }

  /** An outstanding reservation is on the books under its own network. */
  lemma OutstandingHeld(s: Relay, netOf: Ip -> Network, res: nat)
    requires SeatsOk(s) && res in s.issued && Outstanding(s, res)
    ensures var nets := ReservedNets(s.tickets, s.issued, netOf);
            s.issued[res].place in nets && nets[s.issued[res].place] == netOf(s.issued[res].ip)
  {
    var place := s.issued[res].place;
    assert Place(place.ticketId, place.role) == place;
    assert place.role in {Initiator, Responder};
  }

  lemma SameHeldBalances(s: Relay, s': Relay, netOf: Ip -> Network, lost: multiset<Network>)
    requires Balanced(s, netOf, lost) && Held(s', netOf) == Held(s, netOf) && s'.counts == s.counts
    ensures Balanced(s', netOf, lost)
  {
    hide Held;
    assert forall n: Network :: Get(s.counts, n) == Held(s, netOf)[n] + lost[n];
  }

  lemma CommitTakeBalances(s: Relay, netOf: Ip -> Network, res: nat, lost: multiset<Network>)
    requires SeatsOk(s) && res in s.issued && Balanced(s, netOf, lost)
    requires CanCommit(s, res) ==> res !in s.committing
    ensures Balanced(DoCommitTake(s, res), netOf, lost)
  {
    hide ReservedNets, CommittingNets, AdmittedNets, Tally;
    if CanCommit(s, res) {
      var r := s.issued[res];
      OutstandingHeld(s, netOf, res);
      TakeSeat(s.tickets, s.issued, netOf, r.place, Seat(true, None));
      TakeCommitting(s.committing[res := r], netOf, res);
      assert s.committing[res := r] - {res} == s.committing;
      SameHeldBalances(s, DoCommitTake(s, res), netOf, lost);
    }
  }

  lemma RollbackBalances(s: Relay, netOf: Ip -> Network, res: nat, lost: multiset<Network>)
    requires SeatsOk(s) && res in s.issued && Balanced(s, netOf, lost)
    ensures Balanced(DoRollback(s, netOf, res), netOf, lost)
  {
    hide ReservedNets, CommittingNets, AdmittedNets, Tally;
    if Outstanding(s, res) {
      var r := s.issued[res];
      OutstandingHeld(s, netOf, res);
      TakeSeat(s.tickets, s.issued, netOf, r.place, SeatAt(s, r.place).value.(reservation := None));
      SameHeldBalances(s, DoRollback(s, netOf, res), netOf, lost);
    }
  }

  lemma CommitLandHolds(s: Relay, netOf: Ip -> Network, res: nat)
    requires res in s.committing
    ensures Held(DoCommitLand(s, res), netOf) + Overwritten(s, netOf, res) == Held(s, netOf)
  {
    hide ReservedNets, CommittingNets, AdmittedNets, Tally, Overwritten;
    TakeCommitting(s.committing, netOf, res);
    AdmitOver(s, netOf, res);
    var s' := DoCommitLand(s, res);
    Exchange(Tally(ReservedNets(s.tickets, s.issued, netOf)),
             Tally(CommittingNets(s.committing, netOf)), Tally(CommittingNets(s'.committing, netOf)),
             Tally(AdmittedNets(s.admissions, netOf)), Tally(AdmittedNets(s'.admissions, netOf)),
             s.releasing, Overwritten(s, netOf, res), multiset{netOf(s.committing[res].ip)});
  }

  lemma Exchange(a: multiset<Network>, c: multiset<Network>, c': multiset<Network>, d: multiset<Network>,
                 d': multiset<Network>, r: multiset<Network>, over: multiset<Network>, x: multiset<Network>)
    requires c == c' + x && d' + over == d + x
    ensures (a + c' + d' + r) + over == a + c + d + r
  {
    assert (a + c' + d' + r) + over == a + c' + (d' + over) + r;
    assert a + c' + (d + x) + r == a + (c' + x) + d + r;
  }

  lemma AdmitOver(s: Relay, netOf: Ip -> Network, res: nat)
    requires res in s.committing
    ensures Tally(AdmittedNets(DoCommitLand(s, res).admissions, netOf)) + Overwritten(s, netOf, res) ==
            Tally(AdmittedNets(s.admissions, netOf)) + multiset{netOf(s.committing[res].ip)}
  {
    hide AdmittedNets, Tally;
    var r, admissions := s.committing[res], DoCommitLand(s, res).admissions;
    TakeAdmitted(admissions, netOf, r.place);
    if r.place in s.admissions {
      TakeAdmitted(s.admissions, netOf, r.place);
      assert admissions - {r.place} == s.admissions - {r.place};
    } else {
      assert admissions - {r.place} == s.admissions;
    }
  }

  lemma CommitLandBalances(s: Relay, netOf: Ip -> Network, res: nat, lost: multiset<Network>)
    requires res in s.committing && Balanced(s, netOf, lost)
    ensures Balanced(DoCommitLand(s, res), netOf, lost + Overwritten(s, netOf, res))
  {
    hide Held, Overwritten;
    CommitLandHolds(s, netOf, res);
    var s', more := DoCommitLand(s, res), Overwritten(s, netOf, res);
    forall n: Network
      ensures Get(s'.counts, n) == Held(s', netOf)[n] + (lost + more)[n]
    {
      assert Get(s.counts, n) == Held(s, netOf)[n] + lost[n];
      assert Held(s, netOf)[n] == Held(s', netOf)[n] + more[n];
    }
  }

  /** Landing a commit conserves the slots exactly when its place is free. */
  lemma CommitLandConserves(s: Relay, netOf: Ip -> Network, res: nat)
    requires res in s.committing && Conserved(s, netOf)
    ensures Conserved(DoCommitLand(s, res), netOf) <==> s.committing[res].place !in s.admissions
  {
    hide Held;
    CommitLandBalances(s, netOf, res, multiset{});
    var s' := DoCommitLand(s, res);
    var place := s.committing[res].place;
    if place in s.admissions {
      var n := netOf(s.admissions[place]);
      assert Get(s'.counts, n) == Held(s', netOf)[n] + (multiset{} + Overwritten(s, netOf, res))[n];
    } else {
      assert multiset{} + Overwritten(s, netOf, res) == multiset{};
    }
  }

  lemma LeaveBalances(s: Relay, netOf: Ip -> Network, place: Place, lost: multiset<Network>)
    requires Balanced(s, netOf, lost)
    ensures Balanced(Leave(s, netOf, place), netOf, lost)
  {
    hide ReservedNets, CommittingNets, AdmittedNets, Tally;
    if place in s.admissions {
      TakeAdmitted(s.admissions, netOf, place);
      SameHeldBalances(s, Leave(s, netOf, place), netOf, lost);
    }
  }

  /** Adding, accepting or dropping unreserved tickets moves no slot. */
  lemma SameReserved(t: map<TicketId, Ticket>, t': map<TicketId, Ticket>, issued: map<nat, Reservation>,
                     netOf: Ip -> Network)
    requires forall id, role :: id in t && t[id].SeatOf(role).reservation.Some? ==>
               id in t' && t'[id].SeatOf(role) == t[id].SeatOf(role)
    requires forall id, role :: id in t' && t'[id].SeatOf(role).reservation.Some? ==>
               id in t && t'[id].SeatOf(role) == t[id].SeatOf(role)
    ensures ReservedNets(t, issued, netOf) == ReservedNets(t', issued, netOf)
  {
  }

  lemma MoreIssued(tickets: map<TicketId, Ticket>, issued: map<nat, Reservation>, netOf: Ip -> Network, n: nat,
                   r: Reservation)
    requires n !in issued
    requires forall id, role :: id in tickets && tickets[id].SeatOf(role).reservation.Some? ==>
               tickets[id].SeatOf(role).reservation.value in issued
    ensures ReservedNets(tickets, issued[n := r], netOf) == ReservedNets(tickets, issued, netOf)
  {
  }

  lemma FillSeat(tickets: map<TicketId, Ticket>, issued: map<nat, Reservation>, netOf: Ip -> Network, place: Place,
                 n: nat)
    requires place.ticketId in tickets && n in issued
    requires tickets[place.ticketId].SeatOf(place.role).reservation.None?
    ensures var t := tickets[place.ticketId];
            var tickets' := tickets[place.ticketId := t.WithSeat(place.role, Seat(false, Some(n)))];
            Tally(ReservedNets(tickets', issued, netOf)) ==
            Tally(ReservedNets(tickets, issued, netOf)) + multiset{netOf(issued[n].ip)}
  {
    var tickets' := tickets[place.ticketId := tickets[place.ticketId].WithSeat(place.role, Seat(false, Some(n)))];
    assert Place(place.ticketId, place.role) == place;
    TakeSeat(tickets', issued, netOf, place, tickets[place.ticketId].SeatOf(place.role));
    assert tickets'[place.ticketId].WithSeat(place.role, tickets[place.ticketId].SeatOf(place.role)) ==
        tickets[place.ticketId];
    assert tickets'[place.ticketId := tickets[place.ticketId]] == tickets;
  }

  lemma ReserveHolds(s: Relay, netOf: Ip -> Network, place: Place, ip: Ip, now: int)
    requires SeatsOk(s) && CanReserve(s, netOf, place, ip, now)
    ensures Held(DoReserve(s, netOf, place, ip, now), netOf) == Held(s, netOf) + multiset{netOf(ip)}
  {
    hide ReservedNets, CommittingNets, AdmittedNets, Tally;
    var r := Reservation(place, ip);
    MoreIssued(s.tickets, s.issued, netOf, s.nextId, r);
    FillSeat(s.tickets, s.issued[s.nextId := r], netOf, place, s.nextId);
  }

  // ---------------------------------------------------------------- every step keeps the invariant

  lemma TicketsSeats(s: Relay, step: Step)
    requires SeatsOk(s) && (step.Offer? || step.Accept? || step.Drop?)
    ensures SeatsOk(s.(tickets := DoTickets(s, step)))
  {
    var tickets := DoTickets(s, step);
    forall id, role | id in tickets && tickets[id].SeatOf(role).reservation.Some?
      ensures id in s.tickets && tickets[id].SeatOf(role) == s.tickets[id].SeatOf(role)
    {
    }
  }

  lemma TicketsPlaces(s: Relay, step: Step)
    requires PlacesOk(s) && (step.Offer? || step.Accept? || step.Drop?) && NoReuse(s, step)
    ensures PlacesOk(s.(tickets := DoTickets(s, step)))
  {
    var s' := s.(tickets := DoTickets(s, step));
    assert forall place :: Open(s', place) <==> Open(s, place);
    forall place | Open(s', place) && place.ticketId in s'.tickets
      ensures SeatAt(s', place).value.joined
    {
      assert place.role == Initiator || place.role == Responder;
      assert Open(s, place);
    }
  }

  lemma SetSeatOthers(s: Relay, place: Place, seat: Seat, other: Place)
    requires place.ticketId in s.tickets && other.ticketId in s.tickets
    ensures SeatAt(SetSeat(s, place, seat), other) == if other == place then Some(seat) else SeatAt(s, other)
  {
  }

  lemma ReserveSeatAt(s: Relay, netOf: Ip -> Network, place: Place, ip: Ip, now: int, p: Place)
    requires CanReserve(s, netOf, place, ip, now)
    ensures SeatAt(DoReserve(s, netOf, place, ip, now), p) ==
            if p == place then Some(Seat(false, Some(s.nextId))) else SeatAt(s, p)
  {
    hide Sum;
    if p.ticketId in s.tickets { SetSeatOthers(s, place, Seat(false, Some(s.nextId)), p); }
  }

  lemma ReserveSeats(s: Relay, netOf: Ip -> Network, place: Place, ip: Ip, now: int)
    requires SeatsOk(s) && CanReserve(s, netOf, place, ip, now)
    ensures SeatsOk(DoReserve(s, netOf, place, ip, now))
  {
    hide Sum, Get;
    var s' := DoReserve(s, netOf, place, ip, now);
    forall id, role | id in s'.tickets && s'.tickets[id].SeatOf(role).reservation.Some?
      ensures s'.tickets[id].SeatOf(role).reservation.value in s'.issued &&
              s'.issued[s'.tickets[id].SeatOf(role).reservation.value].place == Place(id, role)
    {
      assert SeatAt(s', Place(id, role)) == Some(s'.tickets[id].SeatOf(role));
      ReserveSeatAt(s, netOf, place, ip, now, Place(id, role));
    }
  }

  lemma ReserveAnySeats(s: Relay, netOf: Ip -> Network, place: Place, ip: Ip, now: int)
    requires SeatsOk(s)
    ensures SeatsOk(DoReserve(s, netOf, place, ip, now))
  {
    hide Sum, Get;
    if CanReserve(s, netOf, place, ip, now) { ReserveSeats(s, netOf, place, ip, now); }
  }

  lemma ReservePlaces(s: Relay, netOf: Ip -> Network, place: Place, ip: Ip, now: int)
    requires PlacesOk(s)
    ensures PlacesOk(DoReserve(s, netOf, place, ip, now))
  {
    hide Sum, Get, SetSeat;
    var s' := DoReserve(s, netOf, place, ip, now);
    if CanReserve(s, netOf, place, ip, now) {
      ReserveKeeps(s, netOf, place, ip, now);
      forall p | Open(s', p) && p.ticketId in s'.tickets
        ensures SeatAt(s', p).value.joined
      {
        ReserveSeatAt(s, netOf, place, ip, now, p);
        assert Open(s, p);
      }
    } else {
      SamePlaces(s, s');
    }
  }

  lemma ReserveKeeps(s: Relay, netOf: Ip -> Network, place: Place, ip: Ip, now: int)
    requires CanReserve(s, netOf, place, ip, now)
    ensures var s' := DoReserve(s, netOf, place, ip, now);
            && s'.tickets.Keys == s.tickets.Keys
            && s'.admissions == s.admissions && s'.committing == s.committing
            && SeatAt(s, place).Some? && !SeatAt(s, place).value.joined
  {
    hide Sum, Get;
  }

  lemma SamePlaces(s: Relay, s': Relay)
    requires PlacesOk(s)
    requires s'.tickets == s.tickets && s'.admissions == s.admissions && s'.committing == s.committing
    ensures PlacesOk(s')
  {
    assert forall p :: Open(s', p) <==> Open(s, p);
    assert forall p :: SeatAt(s', p) == SeatAt(s, p);
  }

  lemma CommitTakeSeatAt(s: Relay, res: nat, p: Place)
    requires res in s.issued && CanCommit(s, res) && p.ticketId in s.tickets
    ensures SeatAt(DoCommitTake(s, res), p) == if p == s.issued[res].place then Some(Seat(true, None)) else SeatAt(s, p)
  {
    SetSeatOthers(s, s.issued[res].place, Seat(true, None), p);
  }

  lemma CommitTakeSeats(s: Relay, res: nat)
    requires SeatsOk(s) && res in s.issued
    ensures SeatsOk(DoCommitTake(s, res))
  {
    if CanCommit(s, res) {
      var place, s' := s.issued[res].place, DoCommitTake(s, res);
      forall p: Place | p.ticketId in s.tickets
        ensures SeatAt(s', p) == if p == place then Some(Seat(true, None)) else SeatAt(s, p)
      {
        CommitTakeSeatAt(s, res, p);
      }
      SeatsFrom(s, s', place);
    }
  }

  lemma CommitTakePlaces(s: Relay, res: nat)
    requires PlacesOk(s) && res in s.issued
    ensures PlacesOk(DoCommitTake(s, res))
  {
    if CanCommit(s, res) {
      var place, s' := s.issued[res].place, DoCommitTake(s, res);
      assert !Open(s, place);
      forall p | Open(s', p)
        ensures p == place || Open(s, p)
        ensures p.ticketId in s'.tickets ==> SeatAt(s', p).value.joined
      {
        if p.ticketId in s.tickets { CommitTakeSeatAt(s, res, p); }
      }
    }
  }

  /** Emptying one seat leaves the reservation records in order. */
  lemma SeatsFrom(s: Relay, s': Relay, place: Place)
    requires SeatsOk(s)
    requires s'.issued == s.issued && s'.nextId == s.nextId && s'.tickets.Keys == s.tickets.Keys
    requires forall res :: res in s'.committing ==> res in s.issued && s'.committing[res] == s.issued[res]
    requires forall p: Place :: p.ticketId in s.tickets ==>
               if p == place then SeatAt(s', p).value.reservation.None? else SeatAt(s', p) == SeatAt(s, p)
    ensures SeatsOk(s')
  {
    forall id, role | id in s'.tickets && s'.tickets[id].SeatOf(role).reservation.Some?
      ensures s'.tickets[id].SeatOf(role).reservation.value in s'.issued &&
              s'.issued[s'.tickets[id].SeatOf(role).reservation.value].place == Place(id, role)
    {
      assert SeatAt(s', Place(id, role)).value == s'.tickets[id].SeatOf(role);
      assert SeatAt(s, Place(id, role)).value == s.tickets[id].SeatOf(role);
    }
  }

  lemma RollbackSeatAt(s: Relay, netOf: Ip -> Network, res: nat, p: Place)
    requires res in s.issued && Outstanding(s, res) && p.ticketId in s.tickets
    ensures SeatAt(DoRollback(s, netOf, res), p) ==
            if p == s.issued[res].place then Some(SeatAt(s, p).value.(reservation := None)) else SeatAt(s, p)
  {
    var place := s.issued[res].place;
    SetSeatOthers(s, place, SeatAt(s, place).value.(reservation := None), p);
  }

  lemma RollbackSeats(s: Relay, netOf: Ip -> Network, res: nat)
    requires SeatsOk(s) && res in s.issued
    ensures SeatsOk(DoRollback(s, netOf, res))
  {
    if Outstanding(s, res) {
      var place, s' := s.issued[res].place, DoRollback(s, netOf, res);
      forall p: Place | p.ticketId in s.tickets
        ensures if p == place then SeatAt(s', p).value.reservation.None? else SeatAt(s', p) == SeatAt(s, p)
      {
        RollbackSeatAt(s, netOf, res, p);
      }
      SeatsFrom(s, s', place);
    }
  }

  lemma RollbackPlaces(s: Relay, netOf: Ip -> Network, res: nat)
    requires PlacesOk(s) && res in s.issued
    ensures PlacesOk(DoRollback(s, netOf, res))
  {
    if Outstanding(s, res) {
      var s' := DoRollback(s, netOf, res);
      assert forall p :: Open(s', p) <==> Open(s, p);
      forall p | Open(s', p) && p.ticketId in s'.tickets
        ensures SeatAt(s', p).value.joined
      {
        RollbackSeatAt(s, netOf, res, p);
      }
    }
  }

  lemma CommitLandPlaces(s: Relay, res: nat)
    requires PlacesOk(s) && res in s.committing
    ensures PlacesOk(DoCommitLand(s, res))
  {
    var s' := DoCommitLand(s, res);
    forall p | Open(s', p)
      ensures Open(s, p)
    {
    }
  }

  lemma LeavePlaces(s: Relay, netOf: Ip -> Network, place: Place)
    requires PlacesOk(s)
    ensures PlacesOk(Leave(s, netOf, place))
  {
    var s' := Leave(s, netOf, place);
    forall p | Open(s', p)
      ensures Open(s, p)
    {
    }
  }

  lemma NextPlaces(s: Relay, netOf: Ip -> Network, step: Step)
    requires PlacesOk(s) && Enabled(s, step) && NoReuse(s, step)
    ensures PlacesOk(Next(s, netOf, step))
  {
    hide PlacesOk, DoTickets, DoReserve, DoCommitTake, DoCommitLand, DoRollback, Leave;
    match step {
      case Offer(_, _) => TicketsPlaces(s, step);
      case Accept(_) => TicketsPlaces(s, step);
      case Drop(_) => TicketsPlaces(s, step);
      case Reserve(place, ip, now) => ReservePlaces(s, netOf, place, ip, now);
      case CommitTake(res) => CommitTakePlaces(s, res);
      case CommitLand(res) => CommitLandPlaces(s, res);
      case Rollback(res) => RollbackPlaces(s, netOf, res);
      case Cleanup(place) => LeavePlaces(s, netOf, place);
      case CleanupAll(id) =>
        LeavePlaces(s, netOf, Place(id, Initiator));
        LeavePlaces(Leave(s, netOf, Place(id, Initiator)), netOf, Place(id, Responder));
      case Release(n) => SamePlaces(s, DoRelease(s, n));
    }
  }

  predicate IsQuiet(step: Step) { step.CommitLand? || step.Cleanup? || step.CleanupAll? || step.Release? }

  /** These steps leave tickets and reservations alone, and commit nothing new. */
  lemma QuietStep(s: Relay, netOf: Ip -> Network, step: Step)
    requires IsQuiet(step) && Enabled(s, step)
    ensures Quiet(s, Next(s, netOf, step))
  {
    hide Quiet, DoTickets, DoReserve, DoCommitTake, DoCommitLand, DoRollback, Leave, DoRelease;
    match step {
      case CommitLand(res) => LandQuiet(s, res);
      case Cleanup(place) => LeaveQuiet(s, netOf, place);
      case CleanupAll(id) =>
        LeaveQuiet(s, netOf, Place(id, Initiator));
        LeaveQuiet(Leave(s, netOf, Place(id, Initiator)), netOf, Place(id, Responder));
        QuietTwice(s, Leave(s, netOf, Place(id, Initiator)), Next(s, netOf, step));
      case Release(n) => ReleaseQuiet(s, n);
    }
  }

  ghost predicate Quiet(s: Relay, s': Relay) {
    && s'.tickets == s.tickets && s'.issued == s.issued && s'.nextId == s.nextId
    && forall res :: res in s'.committing ==> res in s.committing && s'.committing[res] == s.committing[res]
  }

  lemma QuietTwice(a: Relay, b: Relay, c: Relay)
    requires Quiet(a, b) && Quiet(b, c)
    ensures Quiet(a, c)
  {
  }

  lemma LandQuiet(s: Relay, res: nat)
    requires res in s.committing
    ensures Quiet(s, DoCommitLand(s, res))
  {
  }

  lemma LeaveQuiet(s: Relay, netOf: Ip -> Network, place: Place)
    ensures Quiet(s, Leave(s, netOf, place))
  {
  }

  lemma ReleaseQuiet(s: Relay, n: Network)
    ensures Quiet(s, DoRelease(s, n))
  {
  }

  lemma SameSeats(s: Relay, s': Relay)
    requires SeatsOk(s) && Quiet(s, s')
    ensures SeatsOk(s')
  {
  }

  lemma NextSeats(s: Relay, netOf: Ip -> Network, step: Step)
    requires SeatsOk(s) && Enabled(s, step)
    ensures SeatsOk(Next(s, netOf, step))
  {
    if IsQuiet(step) {
      hide SeatsOk, Next, Quiet;
      QuietStep(s, netOf, step);
      SameSeats(s, Next(s, netOf, step));
    } else {
      hide SeatsOk, DoTickets, DoReserve, DoCommitTake, DoRollback;
      match step {
        case Offer(_, _) => TicketsSeats(s, step);
        case Accept(_) => TicketsSeats(s, step);
        case Drop(_) => TicketsSeats(s, step);
        case Reserve(place, ip, now) => ReserveAnySeats(s, netOf, place, ip, now);
        case CommitTake(res) => CommitTakeSeats(s, res);
        case Rollback(res) => RollbackSeats(s, netOf, res);
      }
    }
  }

  lemma TicketsBalance(s: Relay, netOf: Ip -> Network, step: Step, lost: multiset<Network>)
    requires step.Offer? || step.Accept? || step.Drop?
    requires Enabled(s, step) && Balanced(s, netOf, lost)
    ensures Balanced(s.(tickets := DoTickets(s, step)), netOf, lost)
  {
    hide Tally;
    SameReserved(s.tickets, DoTickets(s, step), s.issued, netOf);
    SameHeldBalances(s, s.(tickets := DoTickets(s, step)), netOf, lost);
  }

  lemma ReleaseHolds(s: Relay, netOf: Ip -> Network, n: Network)
    requires n in s.releasing
    ensures Held(DoRelease(s, n), netOf) + multiset{n} == Held(s, netOf)
  {
    hide ReservedNets, CommittingNets, AdmittedNets, Tally;
  }

  lemma ReleaseBalances(s: Relay, netOf: Ip -> Network, n: Network, lost: multiset<Network>)
    requires Balanced(s, netOf, lost) && n in s.releasing
    ensures n in s.counts && s.counts[n] >= 1
    ensures Balanced(DoRelease(s, n), netOf, lost)
  {
    hide Held;
    var s' := DoRelease(s, n);
    ReleaseHolds(s, netOf, n);
    assert Get(s.counts, n) == Held(s, netOf)[n] + lost[n];
    forall m: Network
      ensures Get(s'.counts, m) == Held(s', netOf)[m] + lost[m]
    {
      assert Get(s.counts, m) == Held(s, netOf)[m] + lost[m];
      assert Held(s, netOf)[m] == Held(s', netOf)[m] + if m == n then 1 else 0;
    }
  }

  lemma ReserveBalances(s: Relay, netOf: Ip -> Network, place: Place, ip: Ip, now: int, lost: multiset<Network>)
    requires SeatsOk(s) && Balanced(s, netOf, lost)
    ensures Balanced(DoReserve(s, netOf, place, ip, now), netOf, lost)
  {
    hide SeatsOk, Held, Sum;
    var s' := DoReserve(s, netOf, place, ip, now);
    if CanReserve(s, netOf, place, ip, now) {
      ReserveHolds(s, netOf, place, ip, now);
      forall m: Network
        ensures Get(s'.counts, m) == Held(s', netOf)[m] + lost[m]
      {
        assert Get(s.counts, m) == Held(s, netOf)[m] + lost[m];
        assert Held(s', netOf)[m] == Held(s, netOf)[m] + if m == netOf(ip) then 1 else 0;
      }
    } else {
      MoreIdsHeld(s, netOf);
      SameHeldBalances(s, s', netOf, lost);
    }
  }

  lemma MoreIdsHeld(s: Relay, netOf: Ip -> Network)
    ensures Held(s.(nextId := s.nextId + 1), netOf) == Held(s, netOf)
  {
    hide ReservedNets, CommittingNets, AdmittedNets, Tally;
  }

  /** What one step leaves counted with nothing holding it. */
  function LostBy(s: Relay, netOf: Ip -> Network, step: Step): multiset<Network>
    requires Enabled(s, step)
  {
    if step.CommitLand? then Overwritten(s, netOf, step.res) else multiset{}
  }

  lemma NextBalances(s: Relay, netOf: Ip -> Network, step: Step, lost: multiset<Network>)
    requires SeatsOk(s) && CommittedOnce(s) && Balanced(s, netOf, lost) && Enabled(s, step)
    ensures Balanced(Next(s, netOf, step), netOf, lost + LostBy(s, netOf, step))
  {
    hide Balanced, DoTickets, DoReserve, DoCommitTake, DoCommitLand, DoRollback, Leave, DoRelease, Overwritten;
    assert lost + multiset{} == lost;
    match step {
      case Offer(_, _) => TicketsBalance(s, netOf, step, lost);
      case Accept(_) => TicketsBalance(s, netOf, step, lost);
      case Drop(_) => TicketsBalance(s, netOf, step, lost);
      case Reserve(place, ip, now) => ReserveBalances(s, netOf, place, ip, now, lost);
      case CommitTake(res) => CommitTakeBalances(s, netOf, res, lost);
      case CommitLand(res) => CommitLandBalances(s, netOf, res, lost);
      case Rollback(res) => RollbackBalances(s, netOf, res, lost);
      case Cleanup(place) => LeaveBalances(s, netOf, place, lost);
      case CleanupAll(id) =>
        LeaveBalances(s, netOf, Place(id, Initiator), lost);
        LeaveBalances(Leave(s, netOf, Place(id, Initiator)), netOf, Place(id, Responder), lost);
      case Release(n) => ReleaseBalances(s, netOf, n, lost);
    }
  }

  lemma ReserveCaps(s: Relay, netOf: Ip -> Network, place: Place, ip: Ip, now: int)
    requires CapsHold(s)
    ensures CapsHold(DoReserve(s, netOf, place, ip, now))
  {
    hide Sum;
    var n := netOf(ip);
    SumUpdate(s.counts, n, Get(s.counts, n) + 1);
    var counts' := DoReserve(s, netOf, place, ip, now).counts;
    forall m: Network
      ensures Get(counts', m) <= MAX_RELAY_SESSIONS_PER_NETWORK
    {
      assert Get(s.counts, m) <= MAX_RELAY_SESSIONS_PER_NETWORK;
    }
  }

  lemma ReleaseCaps(s: Relay, n: Network)
    requires CapsHold(s)
    ensures CapsHold(DoRelease(s, n))
  {
    hide Sum;
    if n in s.counts {
      SumRemove(s.counts, n);
      if s.counts[n] > 1 { SumUpdate(s.counts, n, s.counts[n] - 1); }
    }
    forall m: Network
      ensures Get(Released(s.counts, n), m) <= MAX_RELAY_SESSIONS_PER_NETWORK
    {
      assert Get(s.counts, m) <= MAX_RELAY_SESSIONS_PER_NETWORK;
    }
  }

  lemma NextCaps(s: Relay, netOf: Ip -> Network, step: Step)
    requires CapsHold(s) && Enabled(s, step)
    ensures CapsHold(Next(s, netOf, step))
  {
    hide Sum, DoReserve, DoRelease;
    match step {
      case Reserve(place, ip, now) => ReserveCaps(s, netOf, place, ip, now);
      case Release(n) => ReleaseCaps(s, n);
      case _ =>
    }
  }

  // ---------------------------------------------------------------- every run

  ghost predicate IsRun(netOf: Ip -> Network, steps: seq<Step>, states: seq<Relay>) {
    && |states| == |steps| + 1
    && states[0] == START
    && forall i :: 0 <= i < |steps| ==>
         Enabled(states[i], steps[i]) && states[i + 1] == Next(states[i], netOf, steps[i])
  }

  lemma StartConserved(netOf: Ip -> Network)
    ensures Conserved(START, netOf)
  {
    hide Tally, ReservedNets, CommittingNets, AdmittedNets;
    StartNets(netOf);
    Empties<Place, Network>();
    Empties<nat, Network>();
  }

  lemma StartNets(netOf: Ip -> Network)
    ensures ReservedNets(map[], map[], netOf) == map[]
    ensures CommittingNets(map[], netOf) == map[]
    ensures AdmittedNets(map[], netOf) == map[]
  {
    hide Tally;
  }

  // ---------------------------------------------------------------- one resolution, one join

  /** Once given up or taken, a reservation is never outstanding again. */
  ghost predicate Resolved(s: Relay, res: nat) {
    res in s.issued && !Outstanding(s, res)
  }

  /** No reservation being committed is still outstanding. */
  ghost predicate CommittedOnce(s: Relay) { forall res :: res in s.committing ==> Resolved(s, res) }

  predicate Resolves(s: Relay, step: Step, res: nat)
    requires Enabled(s, step)
  {
    (step == CommitTake(res) && CanCommit(s, res)) || (step == Rollback(res) && Outstanding(s, res))
  }

  lemma SeatSetResolved(s: Relay, place: Place, seat: Seat, res: nat)
    requires Resolved(s, res) && place.ticketId in s.tickets && seat.reservation != Some(res)
    ensures Resolved(SetSeat(s, place, seat), res)
  {
    if s.issued[res].place.ticketId in s.tickets { SetSeatOthers(s, place, seat, s.issued[res].place); }
  }

  lemma CommitTakeResolved(s: Relay, r: nat, res: nat)
    requires r in s.issued && Resolved(s, res)
    ensures Resolved(DoCommitTake(s, r), res)
  {
    if CanCommit(s, r) { SeatSetResolved(s, s.issued[r].place, Seat(true, None), res); }
  }

  lemma RollbackResolved(s: Relay, netOf: Ip -> Network, r: nat, res: nat)
    requires r in s.issued && Resolved(s, res)
    ensures Resolved(DoRollback(s, netOf, r), res)
  {
    if Outstanding(s, r) {
      SeatSetResolved(s, s.issued[r].place, SeatAt(s, s.issued[r].place).value.(reservation := None), res);
    }
  }

  lemma ReserveResolved(s: Relay, netOf: Ip -> Network, place: Place, ip: Ip, now: int, res: nat)
    requires SeatsOk(s) && Resolved(s, res)
    ensures Resolved(DoReserve(s, netOf, place, ip, now), res)
  {
    hide Sum, Get;
    if CanReserve(s, netOf, place, ip, now) { ReserveSeatAt(s, netOf, place, ip, now, s.issued[res].place); }
  }

  lemma TicketsResolved(s: Relay, step: Step, res: nat)
    requires Resolved(s, res) && (step.Offer? || step.Accept? || step.Drop?)
    ensures Resolved(s.(tickets := DoTickets(s, step)), res)
  {
  }

  lemma SameResolved(s: Relay, s': Relay, res: nat)
    requires Resolved(s, res) && Quiet(s, s')
    ensures Resolved(s', res)
  {
  }

  lemma KeepsResolved(s: Relay, netOf: Ip -> Network, step: Step, res: nat)
    requires SeatsOk(s) && Enabled(s, step) && Resolved(s, res)
    ensures Resolved(Next(s, netOf, step), res)
  {
    if IsQuiet(step) {
      hide SeatsOk, Next, Resolved, Quiet;
      QuietStep(s, netOf, step);
      SameResolved(s, Next(s, netOf, step), res);
    } else {
      hide DoReserve, DoCommitTake, DoRollback, DoTickets, SeatsOk, Resolved;
      match step {
        case Offer(_, _) => TicketsResolved(s, step, res);
        case Accept(_) => TicketsResolved(s, step, res);
        case Drop(_) => TicketsResolved(s, step, res);
        case Reserve(place, ip, now) => ReserveResolved(s, netOf, place, ip, now, res);
        case CommitTake(r) => CommitTakeResolved(s, r, res);
        case Rollback(r) => RollbackResolved(s, netOf, r, res);
      }
    }
  }

  lemma NextResolved(s: Relay, netOf: Ip -> Network, step: Step, res: nat)
    requires SeatsOk(s) && Enabled(s, step)
    requires Resolved(s, res) || Resolves(s, step, res)
    ensures Resolved(Next(s, netOf, step), res)
  {
    hide DoReserve, DoTickets, SeatsOk;
    if Resolved(s, res) { KeepsResolved(s, netOf, step, res); }
  }

  lemma NextCommittedOnce(s: Relay, netOf: Ip -> Network, step: Step)
    requires SeatsOk(s) && CommittedOnce(s) && Enabled(s, step)
    ensures CommittedOnce(Next(s, netOf, step))
  {
    hide SeatsOk, Resolved, DoTickets, CanReserve;
    forall res | res in Next(s, netOf, step).committing
      ensures Resolved(Next(s, netOf, step), res)
    {
      assert res in s.committing || Resolves(s, step, res);
      NextResolved(s, netOf, step, res);
    }
  }

  /** Whatever the interleaving, reservations stay in order and both caps hold. */
  lemma {:induction false} RunSeats(netOf: Ip -> Network, steps: seq<Step>, states: seq<Relay>, i: nat)
    requires IsRun(netOf, steps, states) && i < |states|
    ensures SeatsOk(states[i]) && CommittedOnce(states[i]) && CapsHold(states[i])
  {
    hide Next, Sum, SeatsOk, CommittedOnce, CapsHold;
    if i == 0 {
      StartSeats();
    } else {
      RunSeats(netOf, steps, states, i - 1);
      NextSeats(states[i - 1], netOf, steps[i - 1]);
      NextCommittedOnce(states[i - 1], netOf, steps[i - 1]);
      NextCaps(states[i - 1], netOf, steps[i - 1]);
    }
  }

  lemma StartSeats()
    ensures BooksOk(START) && CommittedOnce(START) && CapsHold(START)
  {
    Empties<Network, Network>();
  }

  lemma {:induction false} ResolvedStays(netOf: Ip -> Network, steps: seq<Step>, states: seq<Relay>, i: nat, j: nat,
                                         res: nat)
    requires IsRun(netOf, steps, states) && i < j < |states|
    requires Resolves(states[i], steps[i], res)
    ensures Resolved(states[j], res)
    decreases j
  {
    hide Next, SeatsOk, CapsHold, Resolves, Resolved;
    RunSeats(netOf, steps, states, j - 1);
    if i < j - 1 { ResolvedStays(netOf, steps, states, i, j - 1, res); }
    NextResolved(states[j - 1], netOf, steps[j - 1], res);
  }

  /** A reservation is taken by its commit or given up by its watchdog, once, never both. */
  lemma ResolvedOnce(netOf: Ip -> Network, steps: seq<Step>, states: seq<Relay>, i: nat, j: nat, res: nat)
    requires IsRun(netOf, steps, states) && i < j < |steps|
    requires Resolves(states[i], steps[i], res)
    ensures !Resolves(states[j], steps[j], res)
  {
    hide Next;
    ResolvedStays(netOf, steps, states, i, j, res);
  }

  predicate Joins(s: Relay, step: Step, place: Place)
    requires Enabled(s, step)
  {
    step.CommitTake? && s.issued[step.res].place == place && CanCommit(s, step.res)
  }

  /** The seat has been taken, or its ticket is gone. */
  predicate Taken(s: Relay, place: Place) {
    SeatAt(s, place).Some? ==> SeatAt(s, place).value.joined
  }

  lemma SameTaken(s: Relay, s': Relay, place: Place)
    requires Quiet(s, s') && Taken(s, place)
    ensures Taken(s', place)
  {
  }

  lemma TicketsTaken(s: Relay, step: Step, place: Place)
    requires step.Offer? || step.Accept? || step.Drop?
    requires Taken(s, place) && !(step.Offer? && step.id == place.ticketId)
    ensures Taken(s.(tickets := DoTickets(s, step)), place)
  {
  }

  lemma ReserveTaken(s: Relay, netOf: Ip -> Network, p: Place, ip: Ip, now: int, place: Place)
    requires Taken(s, place)
    ensures Taken(DoReserve(s, netOf, p, ip, now), place)
  {
    hide Sum, Get;
    if CanReserve(s, netOf, p, ip, now) { ReserveSeatAt(s, netOf, p, ip, now, place); }
  }

  lemma CommitTakeTaken(s: Relay, r: nat, place: Place)
    requires r in s.issued && (Taken(s, place) || (s.issued[r].place == place && CanCommit(s, r)))
    ensures Taken(DoCommitTake(s, r), place)
  {
    if CanCommit(s, r) && place.ticketId in s.tickets { CommitTakeSeatAt(s, r, place); }
  }

  lemma RollbackTaken(s: Relay, netOf: Ip -> Network, r: nat, place: Place)
    requires r in s.issued && Taken(s, place)
    ensures Taken(DoRollback(s, netOf, r), place)
  {
    if Outstanding(s, r) && place.ticketId in s.tickets { RollbackSeatAt(s, netOf, r, place); }
  }

  lemma NextTaken(s: Relay, netOf: Ip -> Network, step: Step, place: Place)
    requires Enabled(s, step) && !(step.Offer? && step.id == place.ticketId)
    requires Taken(s, place) || Joins(s, step, place)
    ensures Taken(Next(s, netOf, step), place)
  {
    if IsQuiet(step) {
      hide Next, Quiet, Taken;
      QuietStep(s, netOf, step);
      SameTaken(s, Next(s, netOf, step), place);
    } else {
      hide DoReserve, DoCommitTake, DoRollback, DoTickets, Taken, CanCommit;
      match step {
        case Offer(_, _) => TicketsTaken(s, step, place);
        case Accept(_) => TicketsTaken(s, step, place);
        case Drop(_) => TicketsTaken(s, step, place);
        case Reserve(p, ip, now) => ReserveTaken(s, netOf, p, ip, now, place);
        case CommitTake(r) => CommitTakeTaken(s, r, place);
        case Rollback(r) => RollbackTaken(s, netOf, r, place);
      }
    }
  }

  /** Each role of a ticket joins at most once: a second join needs the id offered anew. */
  lemma JoinsOnce(netOf: Ip -> Network, steps: seq<Step>, states: seq<Relay>, i: nat, j: nat, place: Place)
    requires IsRun(netOf, steps, states) && i < j < |steps|
    requires Joins(states[i], steps[i], place)
    requires forall k :: i < k < j && steps[k].Offer? ==> steps[k].id != place.ticketId
    ensures !Joins(states[j], steps[j], place)
  {
    hide Next;
    TakenUntil(netOf, steps, states, i, j, place);
  }

  lemma {:induction false} TakenUntil(netOf: Ip -> Network, steps: seq<Step>, states: seq<Relay>, i: nat, j: nat,
                                      place: Place)
    requires IsRun(netOf, steps, states) && i < j <= |steps|
    requires Joins(states[i], steps[i], place)
    requires forall k :: i < k < j && steps[k].Offer? ==> steps[k].id != place.ticketId
    ensures Taken(states[j], place)
    decreases j
  {
    hide Next, Taken;
    if i < j - 1 { TakenUntil(netOf, steps, states, i, j - 1, place); }
    NextTaken(states[j - 1], netOf, steps[j - 1], place);
  }

  // ---------------------------------------------------------------- where every slot is

  /** The slots left counted by commits that landed on a place still open. */
  ghost function Lost(netOf: Ip -> Network, steps: seq<Step>, states: seq<Relay>, i: nat): multiset<Network>
    requires IsRun(netOf, steps, states) && i < |states|
  {
    if i == 0 then multiset{}
    else Lost(netOf, steps, states, i - 1) + LostBy(states[i - 1], netOf, steps[i - 1])
  }

  /** In every interleaving each network's count is exactly its outstanding reservations, commits
      and releases between two locks, and admissions, and the slots lost to ids reused too soon. */
  lemma {:induction false} SlotsAccounted(netOf: Ip -> Network, steps: seq<Step>, states: seq<Relay>, i: nat)
    requires IsRun(netOf, steps, states) && i < |states|
    ensures Balanced(states[i], netOf, Lost(netOf, steps, states, i)) && CapsHold(states[i])
  {
    hide Next, Sum, SeatsOk, CommittedOnce, CapsHold, Balanced, LostBy;
    RunSeats(netOf, steps, states, i);
    if i == 0 {
      StartBalanced(netOf);
    } else {
      SlotsAccounted(netOf, steps, states, i - 1);
      RunSeats(netOf, steps, states, i - 1);
      NextBalances(states[i - 1], netOf, steps[i - 1], Lost(netOf, steps, states, i - 1));
    }
  }

  lemma StartBalanced(netOf: Ip -> Network)
    ensures Balanced(START, netOf, multiset{})
  {
    StartConserved(netOf);
  }

  /** So in every run a pending release has a slot to take off: the saturating subtraction
      never bites, reused ids or not. */
  lemma ReleaseNeverBites(netOf: Ip -> Network, steps: seq<Step>, states: seq<Relay>, i: nat, n: Network)
    requires IsRun(netOf, steps, states) && i < |states| && n in states[i].releasing
    ensures n in states[i].counts && states[i].counts[n] >= 1
  {
    hide IsRun, Held, Lost;
    SlotsAccounted(netOf, steps, states, i);
    ReleaseBalances(states[i], netOf, n, Lost(netOf, steps, states, i));
  }

  /** A run conserves its slots up to some point exactly when no commit has landed on an open place. */
  lemma ConservedIff(netOf: Ip -> Network, steps: seq<Step>, states: seq<Relay>, i: nat)
    requires IsRun(netOf, steps, states) && i < |states|
    ensures Conserved(states[i], netOf) <==>
            forall j :: 0 <= j < i && steps[j].CommitLand? ==>
              states[j].committing[steps[j].res].place !in states[j].admissions
  {
    hide Next, Held, CapsHold;
    SlotsAccounted(netOf, steps, states, i);
    NothingLostIff(netOf, steps, states, i);
    var lost := Lost(netOf, steps, states, i);
    if lost != multiset{} {
      var n :| n in lost;
      assert Get(states[i].counts, n) == Held(states[i], netOf)[n] + lost[n];
      assert Get(states[i].counts, n) != Held(states[i], netOf)[n] + multiset{}[n];
    }
  }

  lemma {:induction false} NothingLostIff(netOf: Ip -> Network, steps: seq<Step>, states: seq<Relay>, i: nat)
    requires IsRun(netOf, steps, states) && i < |states|
    ensures Lost(netOf, steps, states, i) == multiset{} <==>
            forall j :: 0 <= j < i && steps[j].CommitLand? ==>
              states[j].committing[steps[j].res].place !in states[j].admissions
  {
    if i > 0 {
      hide Next;
      NothingLostIff(netOf, steps, states, i - 1);
      var step := steps[i - 1];
      assert step.CommitLand? && states[i - 1].committing[step.res].place in states[i - 1].admissions ==>
        netOf(states[i - 1].admissions[states[i - 1].committing[step.res].place]) in Lost(netOf, steps, states, i);
    }
  }

  /** Where no id comes back under an open socket, no commit lands on an open place and every
      slot is conserved. */
  lemma SlotsConserved(netOf: Ip -> Network, steps: seq<Step>, states: seq<Relay>, i: nat)
    requires IsRun(netOf, steps, states) && i < |states|
    requires forall j :: 0 <= j < |steps| ==> NoReuse(states[j], steps[j])
    ensures Conserved(states[i], netOf)
  {
    hide Next, Conserved, NoReuse;
    forall j | 0 <= j < i && steps[j].CommitLand?
      ensures states[j].committing[steps[j].res].place !in states[j].admissions
    {
      RunPlaces(netOf, steps, states, j);
    }
    ConservedIff(netOf, steps, states, i);
  }

  lemma {:induction false} RunPlaces(netOf: Ip -> Network, steps: seq<Step>, states: seq<Relay>, i: nat)
    requires IsRun(netOf, steps, states) && i < |states|
    requires forall j :: 0 <= j < |steps| ==> NoReuse(states[j], steps[j])
    ensures PlacesOk(states[i])
  {
    hide Next, NoReuse, PlacesOk, SeatsOk, CapsHold;
    if i == 0 {
      StartSeats();
    } else {
      RunPlaces(netOf, steps, states, i - 1);
      NextPlaces(states[i - 1], netOf, steps[i - 1]);
    }
  }

  // ---------------------------------------------------------------- why ids must not come back early

  lemma Extend(netOf: Ip -> Network, steps: seq<Step>, states: seq<Relay>, step: Step, s: Relay)
    requires IsRun(netOf, steps, states)
    requires Enabled(states[|states| - 1], step) && Next(states[|states| - 1], netOf, step) == s
    ensures IsRun(netOf, steps + [step], states + [s])
  {
    hide Next, Enabled;
  }

  const EX_PLACE := Place(1, Initiator)

  function ExTicket(accepted: bool, seat: Seat): map<TicketId, Ticket> {
    map[1 := Ticket(accepted, 1, seat, Seat(false, None))]
  }

  lemma ExampleOffer(netOf: Ip -> Network, steps0: seq<Step>, states0: seq<Relay>)
    returns (steps: seq<Step>, states: seq<Relay>)
    requires IsRun(netOf, steps0, states0) && states0 != []
    requires states0[|states0| - 1].tickets == map[]
    ensures IsRun(netOf, steps, states) && states != []
    ensures states[|states| - 1] == states0[|states0| - 1].(tickets := ExTicket(true, Seat(false, None)))
  {
    hide IsRun;
    var s0 := states0[|states0| - 1];
    var s1 := s0.(tickets := ExTicket(false, Seat(false, None)));
    Extend(netOf, steps0, states0, Offer(1, 1), s1);
    var s2 := s1.(tickets := ExTicket(true, Seat(false, None)));
    assert Next(s1, netOf, Accept(1)) == s2;
    Extend(netOf, steps0 + [Offer(1, 1)], states0 + [s1], Accept(1), s2);
    steps, states := steps0 + [Offer(1, 1)] + [Accept(1)], states0 + [s1] + [s2];
  }

  /** Ticket 1 is offered, accepted, and its initiator joins from address 7 under reservation `n`. */
  lemma ExampleJoin(netOf: Ip -> Network, steps0: seq<Step>, states0: seq<Relay>, n: nat, issued: map<nat, Reservation>,
                    counts: map<Network, nat>, admissions: map<Place, Ip>)
    returns (steps: seq<Step>, states: seq<Relay>)
    requires IsRun(netOf, steps0, states0) && states0 != []
    requires states0[|states0| - 1] == Relay(map[], counts, admissions, issued, n, map[], multiset{})
    requires Sum(counts) < MAX_GLOBAL_RELAY_SESSIONS && Get(counts, netOf(7)) < MAX_RELAY_SESSIONS_PER_NETWORK
    ensures IsRun(netOf, steps, states) && states != []
    ensures states[|states| - 1] == Relay(ExTicket(true, Seat(true, None)),
                                          counts[netOf(7) := Get(counts, netOf(7)) + 1],
                                          admissions[EX_PLACE := 7], issued[n := Reservation(EX_PLACE, 7)], n + 1,
                                          map[], multiset{})
  {
    hide IsRun, Sum, Get;
    var r := Reservation(EX_PLACE, 7);
    steps, states := ExampleOffer(netOf, steps0, states0);
    var s2 := states[|states| - 1];
    var s3 := s2.(tickets := ExTicket(true, Seat(false, Some(n))),
                  counts := counts[netOf(7) := Get(counts, netOf(7)) + 1],
                  issued := issued[n := r], nextId := n + 1);
    assert Next(s2, netOf, Reserve(EX_PLACE, 7, 0)) == s3;
    Extend(netOf, steps, states, Reserve(EX_PLACE, 7, 0), s3);
    steps, states := ExampleCommit(netOf, steps + [Reserve(EX_PLACE, 7, 0)], states + [s3], n, r);
  }

  lemma ExampleCommit(netOf: Ip -> Network, steps0: seq<Step>, states0: seq<Relay>, n: nat, r: Reservation)
    returns (steps: seq<Step>, states: seq<Relay>)
    requires IsRun(netOf, steps0, states0) && states0 != []
    requires var s := states0[|states0| - 1];
             s.tickets == ExTicket(true, Seat(false, Some(n))) && n in s.issued && s.issued[n] == r &&
                 r.place == EX_PLACE && s.committing == map[]
    ensures IsRun(netOf, steps, states) && states != []
    ensures var s := states0[|states0| - 1];
            states[|states| - 1] == s.(tickets := ExTicket(true, Seat(true, None)),
                                       admissions := s.admissions[EX_PLACE := r.ip])
  {
    hide IsRun, Sum;
    var s := states0[|states0| - 1];
    var s1 := s.(tickets := ExTicket(true, Seat(true, None)), committing := map[n := r]);
    assert Next(s, netOf, CommitTake(n)) == s1;
    Extend(netOf, steps0, states0, CommitTake(n), s1);
    var s2 := s1.(admissions := s.admissions[EX_PLACE := r.ip], committing := map[]);
    assert Next(s1, netOf, CommitLand(n)) == s2;
    Extend(netOf, steps0 + [CommitTake(n)], states0 + [s1], CommitLand(n), s2);
    steps, states := steps0 + [CommitTake(n)] + [CommitLand(n)], states0 + [s1] + [s2];
  }

  lemma ExampleLeave(netOf: Ip -> Network, steps0: seq<Step>, states0: seq<Relay>)
    returns (steps: seq<Step>, states: seq<Relay>)
    requires IsRun(netOf, steps0, states0) && states0 != []
    requires var s := states0[|states0| - 1];
             s.counts == map[netOf(7) := 2] && s.admissions == map[EX_PLACE := 7] && s.releasing == multiset{}
    ensures IsRun(netOf, steps, states) && states != []
    ensures states[|states| - 1] == states0[|states0| - 1].(counts := map[netOf(7) := 1], admissions := map[])
  {
    hide IsRun;
    var n, c := netOf(7), states0[|states0| - 1];
    var d := c.(admissions := map[], releasing := multiset{n});
    assert Next(c, netOf, Cleanup(EX_PLACE)) == d;
    Extend(netOf, steps0, states0, Cleanup(EX_PLACE), d);
    var e := d.(counts := map[n := 1], releasing := multiset{});
    assert Next(d, netOf, Release(n)) == e;
    Extend(netOf, steps0 + [Cleanup(EX_PLACE)], states0 + [d], Release(n), e);
    assert Next(e, netOf, Cleanup(EX_PLACE)) == e;
    Extend(netOf, steps0 + [Cleanup(EX_PLACE)] + [Release(n)], states0 + [d] + [e], Cleanup(EX_PLACE), e);
    steps, states := steps0 + [Cleanup(EX_PLACE)] + [Release(n)] + [Cleanup(EX_PLACE)], states0 + [d] + [e] + [e];
  }

  /** A run that offers an id again while its first socket is open, joins it again, and
      ends both sockets: one slot stays counted with nothing holding it. */
  lemma ReusedIdStrandsASlot(netOf: Ip -> Network) returns (steps: seq<Step>, states: seq<Relay>)
    ensures IsRun(netOf, steps, states) && states != []
    ensures Held(states[|states| - 1], netOf) == multiset{}
    ensures Get(states[|states| - 1].counts, netOf(7)) == 1
  {
    hide IsRun, Sum, Held;
    var n, r := netOf(7), Reservation(EX_PLACE, 7);
    Empties<Network, Network>();
    StartRun(netOf);
    steps, states := ExampleJoin(netOf, [], [START], 0, map[], map[], map[]);
    SumUpdate<Network>(map[], n, 1);
    var a := states[|states| - 1];
    assert a.counts == map[n := 1] && a.admissions == map[EX_PLACE := 7] && a.issued == map[0 := r];
    var b := Relay(map[], map[n := 1], map[EX_PLACE := 7], map[0 := r], 1, map[], multiset{});
    assert Next(a, netOf, Drop({1})) == b;
    Extend(netOf, steps, states, Drop({1}), b);
    steps, states := ExampleJoin(netOf, steps + [Drop({1})], states + [b], 1, map[0 := r], map[n := 1],
                                 map[EX_PLACE := 7]);
    steps, states := ExampleLeave(netOf, steps, states);
    NothingHeld(netOf, states[|states| - 1]);
  }

  lemma StartRun(netOf: Ip -> Network)
    ensures IsRun(netOf, [], [START])
  {
  }

  lemma NoSeatHeld(netOf: Ip -> Network, tickets: map<TicketId, Ticket>, issued: map<nat, Reservation>)
    requires forall id, role :: id in tickets ==> tickets[id].SeatOf(role).reservation.None?
    ensures ReservedNets(tickets, issued, netOf) == map[]
  {
    assert forall p :: p !in ReservedNets(tickets, issued, netOf);
  }

  lemma NothingHeld(netOf: Ip -> Network, s: Relay)
    requires s.tickets == ExTicket(true, Seat(true, None)) && s.committing == map[] && s.admissions == map[] &&
             s.releasing == multiset{}
    ensures Held(s, netOf) == multiset{}
  {
    hide Tally, ReservedNets, CommittingNets, AdmittedNets;
    Empties<Place, Network>();
    Empties<nat, Network>();
    NoSeatHeld(netOf, s.tickets, s.issued);
    StartNets(netOf);
  }
}
