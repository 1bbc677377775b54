/**
 The ticket store as the server keeps it: tickets, their total envelope bytes, a
 responder-to-initiator index of all tickets and one of the pending, counts per
 initiator and per accepting responder, the expiry queue and the poll cursors. Every
 operation is proved to do what `RelayTicketSpec` and `MailboxPaging` say, with the
 indexes agreeing with the tickets throughout.
 */
module RelayTicketStore {
  import opened Options
  import opened MapSum
  import opened Seqs
  import opened RelaySlots
  import opened RelayTicketSpec
  import opened MailboxPaging

  type PairIndex = map<PeerId, map<PeerId, TicketId>>

  // ---------------------------------------------------------------- the pair indexes

  function Of(index: PairIndex, r: PeerId): map<PeerId, TicketId> { if r in index then index[r] else map[] }

  function Anyone(): Held -> bool { (t: Held) => true }

  function Unaccepted(): Held -> bool { (t: Held) => !t.accepted }

  predicate Indexed(index: PairIndex, t: Held, id: TicketId) {
    t.terms.initiator in Of(index, t.terms.responder) && index[t.terms.responder][t.terms.initiator] == id
  }

  predicate PointsAt(tickets: Tickets, p: Held -> bool, r: PeerId, i: PeerId, id: TicketId) {
    id in tickets && p(tickets[id]) && tickets[id].terms.responder == r && tickets[id].terms.initiator == i
  }

  ghost predicate AllPoint(index: PairIndex, tickets: Tickets, p: Held -> bool) {
    forall r, i :: r in index && i in index[r] ==> PointsAt(tickets, p, r, i, index[r][i])
  }

  ghost predicate AllIndexed(index: PairIndex, tickets: Tickets, p: Held -> bool) {
    forall id :: id in tickets && p(tickets[id]) ==> Indexed(index, tickets[id], id)
  }

  /** The index holds exactly the tickets that satisfy `p`, by their two parties, and no empty row. */
  ghost predicate PairsAgree(index: PairIndex, tickets: Tickets, p: Held -> bool) {
    && AllPoint(index, tickets, p)
    && AllIndexed(index, tickets, p)
    && forall r :: r in index ==> index[r] != map[]
  }

  function AddPair(index: PairIndex, t: Held, id: TicketId): PairIndex {
    index[t.terms.responder := Of(index, t.terms.responder)[t.terms.initiator := id]]
  }

  function DropPair(index: PairIndex, t: Held, id: TicketId): PairIndex {
    var r, i := t.terms.responder, t.terms.initiator;
    if r !in index then index
    else
      var row := if i in index[r] && index[r][i] == id then index[r] - {i} else index[r];
      if row == map[] then index - {r} else index[r := row]
  }

  lemma PairsInsert(index: PairIndex, tickets: Tickets, p: Held -> bool, id: TicketId, t: Held)
    requires PairsAgree(index, tickets, p) && p(t) && id !in tickets && !PairTaken(tickets, t.terms)
    ensures PairsAgree(AddPair(index, t, id), tickets[id := t], p)
  {
    var index', tickets' := AddPair(index, t, id), tickets[id := t];
    assert t.terms.initiator in index'[t.terms.responder];
    forall r, i | r in index' && i in index'[r] ensures PointsAt(tickets', p, r, i, index'[r][i]) {
      if !(r == t.terms.responder && i == t.terms.initiator) {
        assert PointsAt(tickets, p, r, i, index[r][i]);
      }
    }
    forall x | x in tickets' && p(tickets'[x]) ensures Indexed(index', tickets'[x], x) {
      if x != id {
        assert Indexed(index, tickets[x], x);
        assert !SamePair(tickets[x], t.terms);
      }
    }
  }

  /** Changing a ticket without moving it in or out of the index. */
  lemma PairsKeep(index: PairIndex, tickets: Tickets, p: Held -> bool, id: TicketId, t: Held)
    requires PairsAgree(index, tickets, p) && id in tickets && t.terms == tickets[id].terms && p(t) == p(tickets[id])
    ensures PairsAgree(index, tickets[id := t], p)
  {
    var tickets' := tickets[id := t];
    forall r, i | r in index && i in index[r] ensures PointsAt(tickets', p, r, i, index[r][i]) {
      assert PointsAt(tickets, p, r, i, index[r][i]);
    }
    forall x | x in tickets' && p(tickets'[x]) ensures Indexed(index, tickets'[x], x) {
      assert Indexed(index, tickets[x], x);
    }
  }

  /** A ticket that leaves, or stops satisfying `p`, leaves its place in the index. */
  lemma PairsDrop(index: PairIndex, tickets: Tickets, tickets': Tickets, p: Held -> bool, id: TicketId)
    requires PairsAgree(index, tickets, p) && id in tickets && p(tickets[id])
    requires tickets' - {id} == tickets - {id} && (id in tickets' ==> !p(tickets'[id]))
    ensures PairsAgree(DropPair(index, tickets[id], id), tickets', p)
  {
    var t := tickets[id];
    var index' := DropPair(index, t, id);
    assert Indexed(index, t, id);
    forall r, i | r in index' && i in index'[r] ensures PointsAt(tickets', p, r, i, index'[r][i]) {
      assert PointsAt(tickets, p, r, i, index[r][i]);
      assert index[r][i] != id;
      assert index[r][i] in tickets - {id};
    }
    forall x | x in tickets' && p(tickets'[x]) ensures Indexed(index', tickets'[x], x) {
      assert x in tickets' - {id};
      assert Indexed(index, tickets[x], x);
    }
  }

  lemma PairsSpare(index: PairIndex, tickets: Tickets, p: Held -> bool, id: TicketId)
    requires PairsAgree(index, tickets, p) && id in tickets && !p(tickets[id])
    ensures PairsAgree(DropPair(index, tickets[id], id), tickets - {id}, p)
  {
    var t := tickets[id];
    assert DropPair(index, t, id) == index by {
      var r, i := t.terms.responder, t.terms.initiator;
      if r in index && i in index[r] { assert PointsAt(tickets, p, r, i, index[r][i]); }
      assert r in index ==> index[r := index[r]] == index;
    }
    forall r, i | r in index && i in index[r] ensures PointsAt(tickets - {id}, p, r, i, index[r][i]) {
      assert PointsAt(tickets, p, r, i, index[r][i]);
    }
    forall x | x in tickets - {id} && p((tickets - {id})[x]) ensures Indexed(index, (tickets - {id})[x], x) {
      assert Indexed(index, tickets[x], x);
    }
  }

  lemma DropPairRows(index: PairIndex, t: Held, id: TicketId)
    ensures DropPair(index, t, id).Keys <= index.Keys
    ensures forall r :: r in index && r != t.terms.responder ==> r in DropPair(index, t, id)
  {
  }

  lemma PairLookup(index: PairIndex, tickets: Tickets, terms: Terms)
    requires PairsAgree(index, tickets, Anyone())
    ensures PairTaken(tickets, terms) <==> terms.initiator in Of(index, terms.responder)
  {
    var r, i := terms.responder, terms.initiator;
    if i in Of(index, r) {
      assert PointsAt(tickets, Anyone(), r, i, index[r][i]);
      assert SamePair(tickets[index[r][i]], terms);
    }
    if id :| id in tickets && SamePair(tickets[id], terms) {
      assert Indexed(index, tickets[id], id);
    }
  }

  /** The responder is named on some ticket. */
  ghost predicate HasTicket(tickets: Tickets, r: PeerId) {
    exists id :: id in tickets && tickets[id].terms.responder == r
  }

  lemma RowIffTicket(index: PairIndex, tickets: Tickets, r: PeerId)
    requires PairsAgree(index, tickets, Anyone())
    ensures r in index <==> HasTicket(tickets, r)
  {
    if r in index {
      var i :| i in index[r];
      assert PointsAt(tickets, Anyone(), r, i, index[r][i]);
    }
    if id :| id in tickets && tickets[id].terms.responder == r {
      assert Indexed(index, tickets[id], id);
    }
  }

  lemma PendingHasRow(index: PairIndex, pending: PairIndex, tickets: Tickets, r: PeerId)
    requires PairsAgree(index, tickets, Anyone()) && PairsAgree(pending, tickets, Unaccepted()) && r in pending
    ensures r in index
  {
    var i :| i in pending[r];
    assert PointsAt(tickets, Unaccepted(), r, i, pending[r][i]);
    assert Indexed(index, tickets[pending[r][i]], pending[r][i]);
  }

  // ---------------------------------------------------------------- the counts

  type Grouping = PeerId -> Held -> bool

  ghost predicate CountsAgree(counts: map<PeerId, nat>, tickets: Tickets, group: Grouping) {
    forall k: PeerId :: Get(counts, k) == Count(tickets, group(k)) && (k in counts ==> counts[k] > 0)
  }

  lemma CountsInsert(counts: map<PeerId, nat>, tickets: Tickets, group: Grouping, id: TicketId, t: Held, k: PeerId)
    requires CountsAgree(counts, tickets, group) && id !in tickets && forall j :: group(j)(t) <==> j == k
    ensures CountsAgree(counts[k := Get(counts, k) + 1], tickets[id := t], group)
  {
    hide Count;
    var counts' := counts[k := Get(counts, k) + 1];
    forall j: PeerId
      ensures Get(counts', j) == Count(tickets[id := t], group(j)) && (j in counts' ==> counts'[j] > 0)
    {
      CountInsert(tickets, id, t, group(j));
      assert Get(counts, j) == Count(tickets, group(j));
    }
  }

  lemma CountsRemove(counts: map<PeerId, nat>, tickets: Tickets, group: Grouping, id: TicketId, k: PeerId)
    requires CountsAgree(counts, tickets, group) && id in tickets && forall j :: group(j)(tickets[id]) <==> j == k
    ensures CountsAgree(Released(counts, k), tickets - {id}, group)
  {
    hide Count;
    var counts' := Released(counts, k);
    forall j: PeerId
      ensures Get(counts', j) == Count(tickets - {id}, group(j)) && (j in counts' ==> counts'[j] > 0)
    {
      CountRemove(tickets, id, group(j));
      assert Get(counts, j) == Count(tickets, group(j));
    }
  }

  /** A ticket in no group comes or goes. */
  lemma CountsSkip(counts: map<PeerId, nat>, tickets: Tickets, group: Grouping, id: TicketId, t: Held)
    requires CountsAgree(counts, tickets, group) && forall j :: !group(j)(t)
    ensures id !in tickets ==> CountsAgree(counts, tickets[id := t], group)
    ensures id in tickets && tickets[id] == t ==> CountsAgree(counts, tickets - {id}, group)
  {
    hide Count;
    forall j: PeerId
      ensures id !in tickets ==> Count(tickets[id := t], group(j)) == Count(tickets, group(j))
      ensures id in tickets && tickets[id] == t ==> Count(tickets - {id}, group(j)) == Count(tickets, group(j))
    {
      assert Get(counts, j) == Count(tickets, group(j));
      if id in tickets { CountRemove(tickets, id, group(j)); } else { CountInsert(tickets, id, t, group(j)); }
    }
  }

  lemma CountsKeep(counts: map<PeerId, nat>, tickets: Tickets, group: Grouping, id: TicketId, t: Held)
    requires CountsAgree(counts, tickets, group) && id in tickets && forall j :: group(j)(t) == group(j)(tickets[id])
    ensures CountsAgree(counts, tickets[id := t], group)
  {
    hide Count;
    forall j: PeerId
      ensures Get(counts, j) == Count(tickets[id := t], group(j)) && (j in counts ==> counts[j] > 0)
    {
      CountUpdate(tickets, id, t, group(j));
      assert Get(counts, j) == Count(tickets, group(j));
    }
  }

  lemma CountsJoin(counts: map<PeerId, nat>, tickets: Tickets, group: Grouping, id: TicketId, t: Held, k: PeerId)
    requires CountsAgree(counts, tickets, group) && id in tickets
    requires forall j :: !group(j)(tickets[id]) && (group(j)(t) <==> j == k)
    ensures CountsAgree(counts[k := Get(counts, k) + 1], tickets[id := t], group)
  {
    hide Count;
    var counts' := counts[k := Get(counts, k) + 1];
    forall j: PeerId
      ensures Get(counts', j) == Count(tickets[id := t], group(j)) && (j in counts' ==> counts'[j] > 0)
    {
      CountUpdate(tickets, id, t, group(j));
      assert Get(counts, j) == Count(tickets, group(j));
    }
  }

  lemma CountHeld(counts: map<PeerId, nat>, tickets: Tickets, group: Grouping, k: PeerId)
    requires CountsAgree(counts, tickets, group)
    ensures Get(counts, k) == Count(tickets, group(k))
  {
    hide Count;
  }

  lemma EmptyAgrees()
    ensures Inv(EMPTY) && EnvelopeBytes(EMPTY.tickets) == 0
    ensures PairsAgree(map[], EMPTY.tickets, Anyone()) && PairsAgree(map[], EMPTY.tickets, Unaccepted())
    ensures CountsAgree(map[], EMPTY.tickets, FromInitiator) && CountsAgree(map[], EMPTY.tickets, AcceptedBy)
  {
    hide Count, EnvelopeBytes;
    NoTotals();
    RunInv([]);
  }

  // ---------------------------------------------------------------- the store

  class TicketStore {
    var tickets: Tickets
    var envelopeBytes: nat
    var byResponder: PairIndex
    var pendingByResponder: PairIndex
    var mailboxCursors: map<PeerId, PeerId>
    var initiatorCounts: map<PeerId, nat>
    var acceptedCounts: map<PeerId, nat>
    var expirations: seq<Entry>

    function State(): Book
      reads this
    {
      Book(tickets, expirations)
    }

    ghost predicate IndexesAgree()
      reads this
    {
      && envelopeBytes == EnvelopeBytes(tickets)
      && PairsAgree(byResponder, tickets, Anyone())
      && PairsAgree(pendingByResponder, tickets, Unaccepted())
      && CountsAgree(initiatorCounts, tickets, FromInitiator)
      && CountsAgree(acceptedCounts, tickets, AcceptedBy)
      && mailboxCursors.Keys <= byResponder.Keys
    }

    ghost predicate Valid()
      reads this
    {
      Inv(State()) && IndexesAgree()
    }

    constructor ()
      ensures Valid() && State() == EMPTY && mailboxCursors == map[]
    {
      tickets, envelopeBytes, byResponder, pendingByResponder := map[], 0, map[], map[];
      mailboxCursors, initiatorCounts, acceptedCounts, expirations := map[], map[], map[], [];
      new;
      EmptyAgrees();
    }

    /** A new offer, for a pair and under an id not held. */
    method Insert(id: TicketId, t: Held)
      requires IndexesAgree() && id !in tickets && !t.accepted && !PairTaken(tickets, t.terms)
      modifies this
      ensures IndexesAgree() && mailboxCursors == old(mailboxCursors)
      ensures State() == Book(old(tickets)[id := t], old(expirations) + [Entry(t.expiresAt, id)])
    {
      hide PairsAgree, CountsAgree, EnvelopeBytes, PairTaken;
      PairsInsert(byResponder, tickets, Anyone(), id, t);
      PairsInsert(pendingByResponder, tickets, Unaccepted(), id, t);
      CountsInsert(initiatorCounts, tickets, FromInitiator, id, t, t.terms.initiator);
      CountsSkip(acceptedCounts, tickets, AcceptedBy, id, t);
      BytesInsert(tickets, id, t);
      byResponder := AddPair(byResponder, t, id);
      pendingByResponder := AddPair(pendingByResponder, t, id);
      initiatorCounts := initiatorCounts[t.terms.initiator := Get(initiatorCounts, t.terms.initiator) + 1];
      expirations := expirations + [Entry(t.expiresAt, id)];
      envelopeBytes := envelopeBytes + |t.terms.envelope|;
      tickets := tickets[id := t];
    }

    method Remove(id: TicketId)
      requires IndexesAgree() && id in tickets
      modifies this
      ensures IndexesAgree() && State() == Book(old(tickets) - {id}, old(expirations))
      ensures byResponder.Keys <= old(byResponder).Keys
      ensures forall r :: Cursor(r) == if r in byResponder then old(Cursor(r)) else None
    {
      hide PairsAgree, CountsAgree, EnvelopeBytes, DropPair, Released;
      var t := tickets[id];
      DropPairRows(byResponder, t, id);
      PairsDrop(byResponder, tickets, tickets - {id}, Anyone(), id);
      if t.accepted {
        PairsSpare(pendingByResponder, tickets, Unaccepted(), id);
        CountsRemove(acceptedCounts, tickets, AcceptedBy, id, t.terms.responder);
        acceptedCounts := Released(acceptedCounts, t.terms.responder);
      } else {
        PairsDrop(pendingByResponder, tickets, tickets - {id}, Unaccepted(), id);
        CountsSkip(acceptedCounts, tickets, AcceptedBy, id, t);
      }
      CountsRemove(initiatorCounts, tickets, FromInitiator, id, t.terms.initiator);
      BytesRemove(tickets, id);
      envelopeBytes := envelopeBytes - |t.terms.envelope|;
      byResponder := DropPair(byResponder, t, id);
      if t.terms.responder !in byResponder { mailboxCursors := mailboxCursors - {t.terms.responder}; }
      pendingByResponder := DropPair(pendingByResponder, t, id);
      initiatorCounts := Released(initiatorCounts, t.terms.initiator);
      tickets := tickets - {id};
    }

    method PruneExpired(now: int)
      requires Valid()
      modifies this
      ensures Valid() && State() == Pruned(old(State()), now)
      ensures forall r :: Cursor(r) == CursorAfter(old(Cursor(r)), State(), r)
    {
      hide Inv, IndexesAgree, Pruned, Due;
      while HeadDue(expirations, now)
        invariant Valid() && Pruned(State(), now) == Pruned(old(State()), now)
        invariant byResponder.Keys <= old(byResponder).Keys
        invariant forall r :: r in byResponder ==> Cursor(r) == old(Cursor(r))
        decreases Due(expirations, now)
      {
        ghost var b := State();
        PopHeadDue(b, now);
        PopHeadInv(b, now);
        PrunedStep(b, now);
        var id := expirations[0].id;
        TakeFront();
        if id in tickets && tickets[id].expiresAt <= now {
          if tickets[id].Reserved() {
            PushBack(Entry(now + RELAY_UPGRADE_RESERVATION_TIMEOUT, id));
          } else {
            Remove(id);
          }
        }
        assert State() == PopHead(b, now);
      }
      PrunedDone(State(), now);
      CursorsKept(old(mailboxCursors));
    }

    /** Cursors stay exactly with the responders that still have a ticket. */
    lemma CursorsKept(was: map<PeerId, PeerId>)
      requires Valid() && forall r :: r in byResponder ==> Cursor(r) == CursorIn(was, r)
      ensures forall r :: Cursor(r) == CursorAfter(CursorIn(was, r), State(), r)
    {
      hide Inv, PairsAgree, CountsAgree, HasTicket;
      forall r ensures Cursor(r) == CursorAfter(CursorIn(was, r), State(), r) {
        RowIffTicket(byResponder, tickets, r);
      }
    }

    method TakeFront()
      requires IndexesAgree() && expirations != []
      modifies this`expirations
      ensures IndexesAgree() && expirations == old(expirations)[1..]
    {
      expirations := expirations[1..];
    }

    method PushBack(e: Entry)
      requires IndexesAgree()
      modifies this`expirations
      ensures IndexesAgree() && expirations == old(expirations) + [e]
    {
      expirations := expirations + [e];
    }

    method Offer(id: TicketId, terms: Terms, now: int) returns (answer: Answer)
      requires Valid()
      modifies this
      ensures Valid() && (State(), answer) == Apply(old(State()), Op.Offer(id, terms, now))
      ensures forall r :: Cursor(r) == if answer == TooLarge then old(Cursor(r))
                                       else CursorAfter(old(Cursor(r)), Pruned(old(State()), now), r)
    {
      hide Inv, Pruned, PairsAgree, CountsAgree, Count, EnvelopeBytes, PairTaken;
      StepInv(State(), Op.Offer(id, terms, now));
      if !EnvelopeOk(terms) { return TooLarge; }
      PruneExpired(now);
      if |tickets| >= MAX_RELAY_TICKETS || envelopeBytes + |terms.envelope| > MAX_RELAY_TICKET_ENVELOPE_BYTES {
        return Full;
      }
      PairLookup(byResponder, tickets, terms);
      if id in tickets || terms.initiator in Of(byResponder, terms.responder) { return Taken; }
      CountHeld(initiatorCounts, tickets, FromInitiator, terms.initiator);
      if Get(initiatorCounts, terms.initiator) >= MAX_PENDING_RELAY_TICKETS_PER_INITIATOR { return TooMany; }
      Insert(id, Held(terms, false, Seat(false, None), Seat(false, None), now + RELAY_TICKET_TTL));
      answer := Done;
    }

    method Accept(id: TicketId, who: PeerId, now: int) returns (answer: Answer)
      requires Valid()
      modifies this
      ensures Valid() && (State(), answer) == Apply(old(State()), Op.Accept(id, who, now))
      ensures forall r :: Cursor(r) == CursorAfter(old(Cursor(r)), Pruned(old(State()), now), r)
    {
      hide Inv, Pruned, PairsAgree, CountsAgree, Count, EnvelopeBytes;
      StepInv(State(), Op.Accept(id, who, now));
      PruneExpired(now);
      if id !in tickets { return Gone; }
      var t := tickets[id];
      if t.terms.responder != who { return Forbidden; }
      if t.accepted { return Taken; }
      CountHeld(acceptedCounts, tickets, AcceptedBy, who);
      if Get(acceptedCounts, who) >= MAX_ACCEPTED_RELAY_TICKETS_PER_RESPONDER { return TooMany; }
      MarkAccepted(id);
      answer := Done;
    }

    method MarkAccepted(id: TicketId)
      requires IndexesAgree() && id in tickets && !tickets[id].accepted
      modifies this
      ensures IndexesAgree() && mailboxCursors == old(mailboxCursors)
      ensures State() == Book(old(tickets)[id := old(tickets)[id].(accepted := true)], old(expirations))
    {
      hide PairsAgree, CountsAgree, EnvelopeBytes;
      var t := tickets[id].(accepted := true);
      PairsKeep(byResponder, tickets, Anyone(), id, t);
      assert tickets[id := t] - {id} == tickets - {id};
      PairsDrop(pendingByResponder, tickets, tickets[id := t], Unaccepted(), id);
      CountsKeep(initiatorCounts, tickets, FromInitiator, id, t);
      CountsJoin(acceptedCounts, tickets, AcceptedBy, id, t, t.terms.responder);
      BytesUpdate(tickets, id, t);
      pendingByResponder := DropPair(pendingByResponder, tickets[id], id);
      acceptedCounts := acceptedCounts[t.terms.responder := Get(acceptedCounts, t.terms.responder) + 1];
      tickets := tickets[id := t];
    }

    /** A reserve, commit or rollback changes one seat of a ticket. */
    method ChangeSeat(id: TicketId, role: Role, seat: Seat)
      requires Valid()
      modifies this
      ensures Valid() && State() == Apply(old(State()), Op.SetSeat(id, role, seat)).0
      ensures mailboxCursors == old(mailboxCursors)
    {
      hide Inv, PairsAgree, CountsAgree, EnvelopeBytes;
      StepInv(State(), Op.SetSeat(id, role, seat));
      if id in tickets && (seat.reservation.Some? ==> tickets[id].accepted) {
        var t := tickets[id].WithSeat(role, seat);
        PairsKeep(byResponder, tickets, Anyone(), id, t);
        PairsKeep(pendingByResponder, tickets, Unaccepted(), id, t);
        CountsKeep(initiatorCounts, tickets, FromInitiator, id, t);
        CountsKeep(acceptedCounts, tickets, AcceptedBy, id, t);
        BytesUpdate(tickets, id, t);
        tickets := tickets[id := t];
      }
    }

    function Cursor(responder: PeerId): Option<PeerId>
      reads this`mailboxCursors
    {
      CursorIn(mailboxCursors, responder)
    }

    /** Read one stretch of initiators. */
    method ReadStretch(pending: Pending, order: seq<PeerId>, now: int, start: Scan) returns (s: Scan)
      requires forall x :: x in order ==> x in pending
      ensures s == Walk(tickets, now, pending, order, start)
    {
      s := start;
      var i, on := 0, true;
      assert order[0..] == order;
      while i < |order| && on
        invariant i <= |order|
        invariant Walk(tickets, now, pending, order, start) ==
                  if on then Walk(tickets, now, pending, order[i..], s) else s
      {
        assert order[i..][1..] == order[i + 1..];
        var (s', on') := Select(tickets, now, order[i], pending[order[i]], s);
        s, on, i := s', on', i + 1;
      }
    }

    /** The page the next poll would be served; the cursor stays. */
    method Peek(responder: PeerId, now: int) returns (s: Scan)
      ensures s == Poll(tickets, now, Of(pendingByResponder, responder), Cursor(responder))
    {
      hide Walk, Ascending;
      if responder !in pendingByResponder {
        NothingPending(tickets, now, Cursor(responder));
        return FRESH;
      }
      var pending := pendingByResponder[responder];
      var ring := Ascending(pending.Keys);
      if responder in mailboxCursors {
        var c := mailboxCursors[responder];
        s := ReadStretch(pending, Filter(Past(c), ring), now, FRESH);
        WalkAppend(tickets, now, pending, Filter(Past(c), ring), Filter(UpTo(c), ring), FRESH);
        if GoesOn(s) {
          s := ReadStretch(pending, Filter(UpTo(c), ring), now, s);
        }
      } else {
        s := ReadStretch(pending, ring, now, FRESH);
      }
    }

    /** Serve the next page and leave the cursor on the last initiator read. */
    method Page(responder: PeerId, now: int) returns (ids: seq<TicketId>)
      requires Valid()
      modifies this`mailboxCursors
      ensures Valid()
      ensures ids == Poll(tickets, now, Of(pendingByResponder, responder), old(Cursor(responder))).selected
      ensures responder in pendingByResponder ==>
                Cursor(responder) == NextCursor(old(Cursor(responder)),
                                                Poll(tickets, now, pendingByResponder[responder],
                                                     old(Cursor(responder))))
      ensures responder !in pendingByResponder ==> ids == [] && Cursor(responder) == None
      ensures forall r :: r != responder ==> Cursor(r) == old(Cursor(r))
    {
      hide Inv, Poll, PairsAgree, CountsAgree, EnvelopeBytes;
      if responder !in pendingByResponder {
        NothingPending(tickets, now, Cursor(responder));
        mailboxCursors := mailboxCursors - {responder};
        return [];
      }
      var s := Peek(responder, now);
      PendingHasRow(byResponder, pendingByResponder, tickets, responder);
      if s.last.Some? { mailboxCursors := mailboxCursors[responder := s.last.value]; }
      ids := s.selected;
    }

    /** A mailbox poll as the server runs it: prune, then serve the next page. While the responder's
        pending offers stay the same, each poll reads on exactly where the last one stopped, and
        is one step of `MailboxPaging.Pages`. */
    method PollMailbox(responder: PeerId, now: int) returns (ids: seq<TicketId>, ghost k: nat)
      requires Valid()
      modifies this
      ensures Valid() && State() == Pruned(old(State()), now)
      ensures var pending, was := Of(pendingByResponder, responder), old(Cursor(responder));
              var order, page := Order(pending, was), Poll(tickets, now, pending, was);
              && ids == page.selected
              && (pending != map[] ==> Cursor(responder) == NextCursor(was, page))
              && k <= |order| && (order != [] ==> k > 0)
              && ids == LiveIds(tickets, now, pending, order[..k])
              && Order(pending, Cursor(responder)) == Turned(order, k)
      ensures forall id :: id in ids ==> id in tickets && !tickets[id].accepted && tickets[id].expiresAt > now
      ensures forall r :: r != responder ==> Cursor(r) == CursorAfter(old(Cursor(r)), State(), r)
    {
      hide Inv, PairsAgree, CountsAgree, EnvelopeBytes, Pruned, Poll, Order, LiveIds, HasTicket;
      PruneExpired(now);
      ghost var pending, was := Of(pendingByResponder, responder), old(Cursor(responder));
      if responder in pendingByResponder {
        PendingHasRow(byResponder, pendingByResponder, tickets, responder);
        RowIffTicket(byResponder, tickets, responder);
      } else {
        NothingPending(tickets, now, was);
        NothingPending(tickets, now, Cursor(responder));
        NoOrder(was);
        NoOrder(None);
      }
      k := PollContinues(tickets, now, pending, was);
      LiveIdsHeld(tickets, now, pending, Order(pending, was)[..k]);
      ids := Page(responder, now);
    }
  }

  lemma PrunedStep(b: Book, now: int)
    requires HeadDue(b.queue, now)
    ensures Pruned(b, now) == Pruned(PopHead(b, now), now)
  {
  }

  lemma PrunedDone(b: Book, now: int)
    requires !HeadDue(b.queue, now)
    ensures Pruned(b, now) == b
  {
  }

  lemma NoOrder(cursor: Option<PeerId>)
    ensures Order(map[], cursor) == []
  {
  }

  lemma NothingPending(tickets: Tickets, now: int, cursor: Option<PeerId>)
    ensures Poll(tickets, now, map[], cursor) == FRESH
  {
    assert Order(map[], cursor) == [];
  }

  function CursorIn(cursors: map<PeerId, PeerId>, r: PeerId): Option<PeerId> {
    if r in cursors then Some(cursors[r]) else None
  }

  /** A cursor goes with its responder's last ticket, and not before. */
  ghost function CursorAfter(was: Option<PeerId>, b: Book, r: PeerId): Option<PeerId> {
    if HasTicket(b.tickets, r) then was else None
  }
}
