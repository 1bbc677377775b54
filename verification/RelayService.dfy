/**
 What the relay grants: exactly which reservations, that a granted one stands until its own commit or
 rollback whatever else happens, and what each of those two then does.
 */
module RelayService {
  import opened Options
  import opened MapSum
  import opened RelaySlots

  /** The step handed out a reservation. */
  predicate Granted(steps: seq<Step>, states: seq<Relay>, i: nat)
    requires i < |steps| && |states| == |steps| + 1
  {
    steps[i].Reserve? && states[i].nextId in states[i + 1].issued
  }

  predicate SeatFree(t: Ticket, role: Role) { !t.SeatOf(role).joined && t.SeatOf(role).reservation.None? }

  /** In every run a reserve is granted exactly when the ticket is there, accepted and not yet expired,
      its seat is free, and neither the whole relay nor the caller's network is at its cap. */
  lemma GrantedIff(netOf: Ip -> Network, steps: seq<Step>, states: seq<Relay>, i: nat)
    requires IsRun(netOf, steps, states) && i < |steps| && steps[i].Reserve?
    ensures var s, place, network := states[i], steps[i].place, netOf(steps[i].ip);
            Granted(steps, states, i) <==>
            && place.ticketId in s.tickets
            && s.tickets[place.ticketId].accepted && s.tickets[place.ticketId].expiresAt > steps[i].now
            && SeatFree(s.tickets[place.ticketId], place.role)
            && Sum(s.counts) < MAX_GLOBAL_RELAY_SESSIONS && Get(s.counts, network) < MAX_RELAY_SESSIONS_PER_NETWORK
    ensures !Granted(steps, states, i) ==> states[i + 1] == states[i].(nextId := states[i].nextId + 1)
  {
    hide Sum, Get;
    RunSeats(netOf, steps, states, i);
    var s, st := states[i], steps[i];
    assert s.nextId !in s.issued;
    assert states[i + 1] == DoReserve(s, netOf, st.place, st.ip, st.now);
  }

  /** The reservation holds its seat, not yet joined. */
  predicate Stands(s: Relay, res: nat, r: Reservation) {
    res in s.issued && s.issued[res] == r && SeatAt(s, r.place) == Some(Seat(false, Some(res)))
  }

  lemma GrantStands(netOf: Ip -> Network, steps: seq<Step>, states: seq<Relay>, i: nat)
    requires IsRun(netOf, steps, states) && i < |steps| && Granted(steps, states, i)
    ensures Stands(states[i + 1], states[i].nextId, Reservation(steps[i].place, steps[i].ip))
    ensures Get(states[i + 1].counts, netOf(steps[i].ip)) == Get(states[i].counts, netOf(steps[i].ip)) + 1
  {
    hide Sum;
    RunSeats(netOf, steps, states, i);
    var s, st := states[i], steps[i];
    assert CanReserve(s, netOf, st.place, st.ip, st.now);
    ReserveSeatAt(s, netOf, st.place, st.ip, st.now, st.place);
  }

  lemma QuietStands(s: Relay, s': Relay, res: nat, r: Reservation)
    requires Quiet(s, s') && Stands(s, res, r)
    ensures Stands(s', res, r)
  {
  }

  lemma TicketsStand(s: Relay, step: Step, res: nat, r: Reservation)
    requires Enabled(s, step) && (step.Offer? || step.Accept? || step.Drop?) && Stands(s, res, r)
    ensures Stands(s.(tickets := DoTickets(s, step)), res, r)
  {
  }

  lemma ReserveStands(s: Relay, netOf: Ip -> Network, place: Place, ip: Ip, now: int, res: nat, r: Reservation)
    requires SeatsOk(s) && Stands(s, res, r)
    ensures Stands(DoReserve(s, netOf, place, ip, now), res, r)
  {
    hide Sum, Get;
    if CanReserve(s, netOf, place, ip, now) { ReserveSeatAt(s, netOf, place, ip, now, r.place); }
  }

  lemma CommitTakeStands(s: Relay, other: nat, res: nat, r: Reservation)
    requires other in s.issued && other != res && Stands(s, res, r)
    ensures Stands(DoCommitTake(s, other), res, r)
  {
    if CanCommit(s, other) { CommitTakeSeatAt(s, other, r.place); }
  }

  lemma RollbackStands(s: Relay, netOf: Ip -> Network, other: nat, res: nat, r: Reservation)
    requires other in s.issued && other != res && Stands(s, res, r)
    ensures Stands(DoRollback(s, netOf, other), res, r)
  {
    if Outstanding(s, other) { RollbackSeatAt(s, netOf, other, r.place); }
  }

  lemma NextStands(s: Relay, netOf: Ip -> Network, step: Step, res: nat, r: Reservation)
    requires SeatsOk(s) && Enabled(s, step) && Stands(s, res, r) && step != CommitTake(res) && step != Rollback(res)
    ensures Stands(Next(s, netOf, step), res, r)
  {
    if IsQuiet(step) {
      hide Next, Quiet, Stands, SeatsOk;
      QuietStep(s, netOf, step);
      QuietStands(s, Next(s, netOf, step), res, r);
    } else {
      hide DoReserve, DoCommitTake, DoRollback, DoTickets, Stands, SeatsOk;
      match step {
        case Offer(_, _) => TicketsStand(s, step, res, r);
        case Accept(_) => TicketsStand(s, step, res, r);
        case Drop(_) => TicketsStand(s, step, res, r);
        case Reserve(place, ip, now) => ReserveStands(s, netOf, place, ip, now, res, r);
        case CommitTake(other) => CommitTakeStands(s, other, res, r);
        case Rollback(other) => RollbackStands(s, netOf, other, res, r);
      }
    }
  }

  predicate NeitherYet(steps: seq<Step>, i: nat, j: nat, res: nat)
    requires j <= |steps|
  {
    forall k :: i <= k < j ==> steps[k] != CommitTake(res) && steps[k] != Rollback(res)
  }

  /** Granted and not yet committed or rolled back, a reservation holds its seat: neither a prune nor a
      new offer, nor anyone else's reserve, commit or rollback, takes it away. */
  lemma {:induction false} GrantedStands(netOf: Ip -> Network, steps: seq<Step>, states: seq<Relay>, i: nat, j: nat)
    requires IsRun(netOf, steps, states) && i < j <= |steps| && Granted(steps, states, i)
    requires NeitherYet(steps, i + 1, j, states[i].nextId)
    ensures Stands(states[j], states[i].nextId, Reservation(steps[i].place, steps[i].ip))
    decreases j
  {
    hide Next, SeatsOk, Stands, CapsHold, CommittedOnce;
    if j == i + 1 {
      GrantStands(netOf, steps, states, i);
    } else {
      GrantedStands(netOf, steps, states, i, j - 1);
      RunSeats(netOf, steps, states, j - 1);
      NextStands(states[j - 1], netOf, steps[j - 1], states[i].nextId, Reservation(steps[i].place, steps[i].ip));
    }
  }

  /** So the first of the two to come has its effect: a commit seats the socket and goes on to record
      it, a rollback leaves the seat free again and gives the slot back. */
  lemma FirstResolves(netOf: Ip -> Network, steps: seq<Step>, states: seq<Relay>, i: nat, j: nat)
    requires IsRun(netOf, steps, states) && i < j < |steps| && Granted(steps, states, i)
    requires NeitherYet(steps, i + 1, j, states[i].nextId)
    ensures var res, r := states[i].nextId, Reservation(steps[i].place, steps[i].ip);
            && (steps[j] == CommitTake(res) ==>
                  && SeatAt(states[j + 1], r.place) == Some(Seat(true, None))
                  && res in states[j + 1].committing && states[j + 1].committing[res] == r)
            && (steps[j] == Rollback(res) ==>
                  && SeatAt(states[j + 1], r.place) == Some(Seat(false, None))
                  && states[j + 1].releasing == states[j].releasing + multiset{netOf(r.ip)})
  {
    var res, r := states[i].nextId, Reservation(steps[i].place, steps[i].ip);
    GrantedStands(netOf, steps, states, i, j);
    if steps[j] == CommitTake(res) { CommitTakeSeatAt(states[j], res, r.place); }
    if steps[j] == Rollback(res) { RollbackSeatAt(states[j], netOf, res, r.place); }
  }

  lemma {:induction false} CommittingUntil(netOf: Ip -> Network, steps: seq<Step>, states: seq<Relay>, i: nat, j: nat,
                                           res: nat)
    requires IsRun(netOf, steps, states) && i <= j <= |steps| && res in states[i].committing
    requires forall k :: i <= k < j ==> steps[k] != CommitLand(res)
    ensures res in states[j].committing && states[j].committing[res] == states[i].committing[res]
    decreases j
  {
    if i < j {
      hide Next;
      CommittingUntil(netOf, steps, states, i, j - 1, res);
      RunSeats(netOf, steps, states, j - 1);
      CommittingKeeps(states[j - 1], netOf, steps[j - 1], res);
    }
  }

  lemma CommittingKeeps(s: Relay, netOf: Ip -> Network, step: Step, res: nat)
    requires SeatsOk(s) && Enabled(s, step) && res in s.committing && step != CommitLand(res)
    ensures var s' := Next(s, netOf, step); res in s'.committing && s'.committing[res] == s.committing[res]
  {
    hide DoTickets, CanReserve;
  }

  /** A commit under way can always be finished, and then the socket's address is on record for its
      ticket and role. */
  lemma CommitLands(netOf: Ip -> Network, steps: seq<Step>, states: seq<Relay>, i: nat, j: nat, res: nat)
    requires IsRun(netOf, steps, states) && i <= j < |states| && res in states[i].committing
    requires forall k :: i <= k < j ==> steps[k] != CommitLand(res)
    ensures Enabled(states[j], CommitLand(res))
    ensures var r, s' := states[i].committing[res], Next(states[j], netOf, CommitLand(res));
            r.place in s'.admissions && s'.admissions[r.place] == r.ip && res !in s'.committing
  {
    hide Next;
    CommittingUntil(netOf, steps, states, i, j, res);
    LandsHere(states[j], netOf, res);
  }

  lemma LandsHere(s: Relay, netOf: Ip -> Network, res: nat)
    requires res in s.committing
    ensures var r, s' := s.committing[res], Next(s, netOf, CommitLand(res));
            r.place in s'.admissions && s'.admissions[r.place] == r.ip && res !in s'.committing
  {
  }

  /** The end of a session takes its socket off the record and leaves its slot to be released. */
  lemma CleanupLeaves(s: Relay, netOf: Ip -> Network, place: Place)
    requires place in s.admissions
    ensures var s' := Next(s, netOf, Cleanup(place));
            && s'.admissions == s.admissions - {place}
            && s'.releasing == s.releasing + multiset{netOf(s.admissions[place])}
            && Enabled(s', Release(netOf(s.admissions[place])))
  {
  }
}
