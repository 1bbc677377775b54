/**
 Which of a responder's pending offers a mailbox poll serves.

 Offers are read in initiator order, round robin from just after the cursor, until a
 page is full by count, by bytes of JSON or by entries read. The poll leaves the cursor
 on the last initiator it read.
 */
module MailboxPaging {
  import opened Options
  import opened Seqs
  import opened Text
  import opened RelaySlots
  import opened RelayTicketSpec

  const MAX_RELAY_MAILBOX_RESULTS: nat := 8
  const MAX_RELAY_MAILBOX_PAGE_BYTES: nat := 8 * 1024 - 64
  const MAX_RELAY_MAILBOX_SCAN_PER_POLL: nat := 512
  const CLIENT_RESPONSE_BYTES: nat := 8 * 1024
  const TICKET_ID_CHARS: nat := 64

  type Tickets = map<TicketId, Held>

  /** A responder's unaccepted offers, by initiator. */
  type Pending = map<PeerId, TicketId>

  // ---------------------------------------------------------------- what a page weighs

  function ItemText(name: string, t: Terms): string {
    "{\"ticket_id\":\"" + name + "\",\"capability\":\"" + Hex(t.capability) + "\",\"epoch\":" + SignedDecimal(t.epoch)
    + ",\"envelope\":\"" + Hex(t.envelope) + "\"}"
  }

  /** How long one item of a page is when rendered, with its separator. */
  function ItemLength(t: Terms): nat {
    56 + TICKET_ID_CHARS + 2 * |t.capability| + |SignedDecimal(t.epoch)| + 2 * |t.envelope|
  }

  lemma ItemLengthExact(name: string, t: Terms)
    requires |name| == TICKET_ID_CHARS
    ensures ItemLength(t) == 1 + |ItemText(name, t)|
  {
  }

  function PageBytes(tickets: Tickets, ids: seq<TicketId>): nat
    requires forall id :: id in ids ==> id in tickets
  {
    if ids == [] then 0
    else PageBytes(tickets, ids[..|ids| - 1]) + ItemLength(tickets[ids[|ids| - 1]].terms)
  }

  function Joined(names: TicketId -> string, tickets: Tickets, ids: seq<TicketId>): string
    requires forall id :: id in ids ==> id in tickets
  {
    if ids == [] then ""
    else
      var init, last := ids[..|ids| - 1], ids[|ids| - 1];
      Joined(names, tickets, init) + (if init == [] then "" else ",") + ItemText(names(last), tickets[last].terms)
  }

  /** The whole response body. */
  function PageText(names: TicketId -> string, tickets: Tickets, ids: seq<TicketId>): string
    requires forall id :: id in ids ==> id in tickets
  {
    "{\"tickets\":[" + Joined(names, tickets, ids) + "]}"
  }

  lemma {:induction false} JoinedLength(names: TicketId -> string, tickets: Tickets, ids: seq<TicketId>)
    requires forall id :: id in ids ==> id in tickets && |names(id)| == TICKET_ID_CHARS
    ensures |Joined(names, tickets, ids)| + (if ids == [] then 0 else 1) == PageBytes(tickets, ids)
  {
    if ids != [] {
      hide ItemText, ItemLength;
      var init, last := ids[..|ids| - 1], ids[|ids| - 1];
      assert forall id :: id in init ==> id in ids;
      JoinedLength(names, tickets, init);
      ItemLengthExact(names(last), tickets[last].terms);
    }
  }

  // ---------------------------------------------------------------- one poll

  datatype Scan = Scan(scanned: nat, last: Option<PeerId>, selected: seq<TicketId>, bytes: nat)

  const FRESH := Scan(0, None, [], 0)

  predicate LiveOffer(tickets: Tickets, id: TicketId, now: int) {
    id in tickets && !tickets[id].accepted && tickets[id].expiresAt > now
  }

  predicate GoesOn(s: Scan) {
    s.scanned < MAX_RELAY_MAILBOX_SCAN_PER_POLL && |s.selected| < MAX_RELAY_MAILBOX_RESULTS
  }

  /** Consider one pending offer; the flag says whether the poll reads on. */
  function Select(tickets: Tickets, now: int, initiator: PeerId, id: TicketId, s: Scan): (Scan, bool) {
    if !GoesOn(s) then (s, false)
    else if !LiveOffer(tickets, id, now) then (s.(scanned := s.scanned + 1, last := Some(initiator)), true)
    else
      var bytes := ItemLength(tickets[id].terms);
      if s.selected != [] && s.bytes + bytes > MAX_RELAY_MAILBOX_PAGE_BYTES then
        (s.(scanned := MAX_RELAY_MAILBOX_SCAN_PER_POLL), false)
      else (Scan(s.scanned + 1, Some(initiator), s.selected + [id], s.bytes + bytes), true)
  }

  function Walk(tickets: Tickets, now: int, pending: Pending, order: seq<PeerId>, s: Scan): Scan
    requires forall x :: x in order ==> x in pending
  {
    if order == [] then s
    else
      var (s', on) := Select(tickets, now, order[0], pending[order[0]], s);
      if on then Walk(tickets, now, pending, order[1..], s') else s'
  }

  ghost predicate Increasing(r: seq<PeerId>) { forall i, j :: 0 <= i < j < |r| ==> r[i] < r[j] }

  predicate IsLeast(m: PeerId, s: set<PeerId>) { m in s && forall x :: x in s ==> m <= x }

  /** The initiators in ascending order. */
  function Ascending(s: set<PeerId>): (r: seq<PeerId>)
    ensures |r| == |s| && (forall x :: x in r <==> x in s)
  {
    if s == {} then []
    else
      Least(s);
      var m :| IsLeast(m, s);
      var rest := Ascending(s - {m});
      assert forall x :: x in [m] + rest <==> x == m || x in rest;
      [m] + rest
  }

  lemma {:induction false} Least(s: set<PeerId>)
    requires s != {}
    ensures exists m :: IsLeast(m, s)
  {
    var x :| x in s;
    if s == {x} {
      assert IsLeast(x, s);
    } else {
      var rest := s - {x};
      Least(rest);
      var m :| IsLeast(m, rest);
      assert forall y :: y in s ==> y == x || y in rest;
      assert IsLeast(if x < m then x else m, s);
    }
  }

  lemma AscendingCons(s: set<PeerId>) returns (m: PeerId)
    requires s != {}
    ensures IsLeast(m, s) && Ascending(s) == [m] + Ascending(s - {m})
  {
    Least(s);
    m :| IsLeast(m, s);
  }

  lemma IncreasingCons(m: PeerId, rest: seq<PeerId>)
    requires Increasing(rest) && forall x :: x in rest ==> m < x
    ensures Increasing([m] + rest)
  {
    var r := [m] + rest;
    forall i, j | 0 <= i < j < |r| ensures r[i] < r[j] {
      assert r[j] == rest[j - 1] && r[j] in rest;
      assert i > 0 ==> r[i] == rest[i - 1];
    }
  }

  lemma {:induction false} AscendingIncreases(s: set<PeerId>)
    ensures Increasing(Ascending(s))
  {
    if s != {} {
      hide Increasing;
      var m := AscendingCons(s);
      AscendingIncreases(s - {m});
      IncreasingCons(m, Ascending(s - {m}));
    }
  }

  function Past(c: PeerId): PeerId -> bool { (x: PeerId) => x > c }

  function UpTo(c: PeerId): PeerId -> bool { (x: PeerId) => x <= c }

  /** The order a poll reads in: from past the cursor, then from the start up to it. */
  function Order(pending: Pending, cursor: Option<PeerId>): (r: seq<PeerId>)
    ensures forall x :: x in r <==> x in pending
  {
    var ring := Ascending(pending.Keys);
    match cursor
    case None => ring
    case Some(c) => Filter(Past(c), ring) + Filter(UpTo(c), ring)
  }

  function Poll(tickets: Tickets, now: int, pending: Pending, cursor: Option<PeerId>): Scan {
    Walk(tickets, now, pending, Order(pending, cursor), FRESH)
  }

  function NextCursor(cursor: Option<PeerId>, r: Scan): Option<PeerId> { if r.last.Some? then r.last else cursor }

  // ---------------------------------------------------------------- what a poll reads

  /** Two walks, the second only if the first may go on, are one walk over both. */
  lemma {:induction false} WalkAppend(tickets: Tickets, now: int, pending: Pending, a: seq<PeerId>, b: seq<PeerId>,
                                      s: Scan)
    requires forall x :: x in a + b ==> x in pending
    requires forall x :: x in a ==> x in a + b
    requires forall x :: x in b ==> x in a + b
    ensures var s1 := Walk(tickets, now, pending, a, s);
            Walk(tickets, now, pending, a + b, s) == if GoesOn(s1) then Walk(tickets, now, pending, b, s1) else s1
    decreases |a|
  {
    hide ItemLength;
    if a == [] {
      assert a + b == b;
    } else {
      var (s', on) := Select(tickets, now, a[0], pending[a[0]], s);
      assert (a + b)[1..] == a[1..] + b;
      if on {
        assert forall x :: x in a[1..] + b ==> x in a + b;
        WalkAppend(tickets, now, pending, a[1..], b, s');
      }
    }
  }

  function LiveIds(tickets: Tickets, now: int, pending: Pending, order: seq<PeerId>): seq<TicketId>
    requires forall x :: x in order ==> x in pending
  {
    if order == [] then []
    else
      var init, last := order[..|order| - 1], order[|order| - 1];
      LiveIds(tickets, now, pending, init) + (if LiveOffer(tickets, pending[last], now) then [pending[last]] else [])
  }

  lemma {:induction false} LiveIdsHeld(tickets: Tickets, now: int, pending: Pending, order: seq<PeerId>)
    requires forall x :: x in order ==> x in pending
    ensures forall id :: id in LiveIds(tickets, now, pending, order) ==> LiveOffer(tickets, id, now)
  {
    if order != [] { LiveIdsHeld(tickets, now, pending, order[..|order| - 1]); }
  }

  lemma {:induction false} LiveIdsHas(tickets: Tickets, now: int, pending: Pending, order: seq<PeerId>, x: PeerId)
    requires forall y :: y in order ==> y in pending
    requires x in order && LiveOffer(tickets, pending[x], now)
    ensures pending[x] in LiveIds(tickets, now, pending, order)
  {
    if order[|order| - 1] != x { LiveIdsHas(tickets, now, pending, order[..|order| - 1], x); }
  }

  lemma LiveIdsNext(tickets: Tickets, now: int, pending: Pending, order: seq<PeerId>, k: nat)
    requires k < |order| && forall x :: x in order ==> x in pending
    ensures LiveIds(tickets, now, pending, order[..k + 1])
         == LiveIds(tickets, now, pending, order[..k])
            + (if LiveOffer(tickets, pending[order[k]], now) then [pending[order[k]]] else [])
  {
    assert order[..k + 1][..k] == order[..k];
  }

  lemma PageBytesSnoc(tickets: Tickets, ids: seq<TicketId>, id: TicketId)
    requires id in tickets && forall x :: x in ids ==> x in tickets
    ensures forall x :: x in ids + [id] ==> x in tickets
    ensures PageBytes(tickets, ids + [id]) == PageBytes(tickets, ids) + ItemLength(tickets[id].terms)
  {
    assert (ids + [id])[..|ids|] == ids;
  }

  /** Why a page may end. */
  predicate EndsAt(tickets: Tickets, now: int, pending: Pending, order: seq<PeerId>, k: nat, r: Scan)
    requires k <= |order| && forall x :: x in order ==> x in pending
  {
    || k == |order|
    || k == MAX_RELAY_MAILBOX_SCAN_PER_POLL
    || |r.selected| == MAX_RELAY_MAILBOX_RESULTS
    || (&& r.selected != []
        && LiveOffer(tickets, pending[order[k]], now)
        && r.bytes + ItemLength(tickets[pending[order[k]]].terms) > MAX_RELAY_MAILBOX_PAGE_BYTES)
  }

  /** Exactly the first `k` of `order` have been read, and the page is their live offers. */
  ghost predicate HasRead(tickets: Tickets, now: int, pending: Pending, order: seq<PeerId>, k: nat, r: Scan)
    requires k <= |order| && forall x :: x in order ==> x in pending
  {
    && r.last == (if k == 0 then None else Some(order[k - 1]))
    && r.selected == LiveIds(tickets, now, pending, order[..k])
    && (forall id :: id in r.selected ==> id in tickets)
    && r.bytes == PageBytes(tickets, r.selected)
    && (r.bytes <= MAX_RELAY_MAILBOX_PAGE_BYTES || |r.selected| <= 1)
    && |r.selected| <= MAX_RELAY_MAILBOX_RESULTS
    && k <= MAX_RELAY_MAILBOX_SCAN_PER_POLL
  }

  lemma ReadsOne(tickets: Tickets, now: int, pending: Pending, order: seq<PeerId>, k: nat, s: Scan)
    requires k < |order| && forall x :: x in order ==> x in pending
    requires HasRead(tickets, now, pending, order, k, s) && s.scanned == k
    ensures var (s', on) := Select(tickets, now, order[k], pending[order[k]], s);
            if on then HasRead(tickets, now, pending, order, k + 1, s') && s'.scanned == k + 1
            else HasRead(tickets, now, pending, order, k, s') && EndsAt(tickets, now, pending, order, k, s')
  {
    hide ItemLength, LiveIds, PageBytes;
    LiveIdsNext(tickets, now, pending, order, k);
    var id := pending[order[k]];
    if LiveOffer(tickets, id, now) {
      PageBytesSnoc(tickets, s.selected, id);
    } else {
      assert s.selected + [] == s.selected;
    }
  }

  lemma {:induction false} WalkReads(tickets: Tickets, now: int, pending: Pending, order: seq<PeerId>, j: nat, s: Scan)
    returns (k: nat)
    requires j <= |order| && forall x :: x in order ==> x in pending
    requires HasRead(tickets, now, pending, order, j, s) && s.scanned == j
    ensures j <= k <= |order|
    ensures var r := Walk(tickets, now, pending, order[j..], s);
            HasRead(tickets, now, pending, order, k, r) && EndsAt(tickets, now, pending, order, k, r)
    decreases |order| - j
  {
    hide HasRead;
    if j == |order| {
      k := j;
    } else {
      ReadsOne(tickets, now, pending, order, j, s);
      var (s', on) := Select(tickets, now, order[j], pending[order[j]], s);
      if on {
        assert order[j..][1..] == order[j + 1..];
        k := WalkReads(tickets, now, pending, order, j + 1, s');
      } else {
        k := j;
      }
    }
  }

  /** A poll reads a first stretch of its order, at least one entry if there is any, serves
      exactly the live offers in it, and stops only where a limit says so. */
  lemma PollReads(tickets: Tickets, now: int, pending: Pending, cursor: Option<PeerId>) returns (k: nat)
    ensures var order := Order(pending, cursor);
            var r := Poll(tickets, now, pending, cursor);
            && k <= |order| && (order != [] ==> k > 0)
            && HasRead(tickets, now, pending, order, k, r)
            && EndsAt(tickets, now, pending, order, k, r)
  {
    hide Order;
    var order := Order(pending, cursor);
    assert order[..0] == [] && order[0..] == order;
    k := WalkReads(tickets, now, pending, order, 0, FRESH);
    if k == 0 { assert order[..0] == []; }
  }

  // ---------------------------------------------------------------- round robin

  /** A sorted ring cut at a cursor. */
  lemma {:induction false} CutAt(ring: seq<PeerId>, c: PeerId) returns (cut: nat)
    requires Increasing(ring)
    ensures cut <= |ring|
    ensures Filter(UpTo(c), ring) == ring[..cut] && Filter(Past(c), ring) == ring[cut..]
    ensures forall p :: 0 <= p < |ring| && ring[p] == c ==> cut == p + 1
  {
    hide Filter;
    cut := 0;
    while cut < |ring| && ring[cut] <= c
      invariant cut <= |ring|
      invariant forall i :: 0 <= i < cut ==> ring[i] <= c
    {
      cut := cut + 1;
    }
    assert forall i :: cut <= i < |ring| ==> ring[i] >= ring[cut] > c;
    assert forall i :: 0 <= i < cut - 1 ==> ring[i] < ring[cut - 1];
    FilterHead(UpTo(c), ring, cut);
    FilterTail(Past(c), ring, cut);
  }

  /** A ring read from `start` on. */
  function Turned<T>(s: seq<T>, start: nat): (r: seq<T>)
    requires start <= |s|
    ensures |r| == |s|
  {
    s[start..] + s[..start]
  }

  lemma TurnedTwice<T>(s: seq<T>, a: nat, b: nat)
    requires a <= |s| && b <= |s|
    ensures Turned(Turned(s, a), b) == Turned(s, if a + b <= |s| then a + b else a + b - |s|)
  {
    var t := Turned(s, a);
    if a + b <= |s| {
      assert t[b..] == s[a + b..] + s[..a] && t[..b] == s[a..a + b];
      assert s[..a + b] == s[..a] + s[a..a + b];
    } else {
      var m := a + b - |s|;
      assert t[b..] == s[m..a] && t[..b] == s[a..] + s[..m];
      assert s[m..] == s[m..a] + s[a..];
    }
  }

  lemma TurnedAt<T>(s: seq<T>, a: nat, k: nat)
    requires a <= |s| && 0 < k <= |s|
    ensures Turned(s, a)[k - 1] == s[(if a + k <= |s| then a + k else a + k - |s|) - 1]
  {
  }

  lemma OrderAt(pending: Pending, c: PeerId) returns (cut: nat)
    ensures var ring := Ascending(pending.Keys);
            && cut <= |ring| && Order(pending, Some(c)) == Turned(ring, cut)
            && forall p :: 0 <= p < |ring| && ring[p] == c ==> cut == p + 1
  {
    hide Filter, Ascending, Increasing;
    AscendingIncreases(pending.Keys);
    cut := CutAt(Ascending(pending.Keys), c);
  }

  lemma OrderCut(pending: Pending, cursor: Option<PeerId>) returns (cut: nat)
    ensures var ring := Ascending(pending.Keys);
            cut <= |ring| && Order(pending, cursor) == Turned(ring, cut)
  {
    hide Ascending;
    if cursor.Some? {
      cut := OrderAt(pending, cursor.value);
    } else {
      cut := 0;
      assert Turned(Ascending(pending.Keys), 0) == Ascending(pending.Keys);
    }
  }

  /** With the cursor on the k-th initiator of an order, the next order is the same one,
      turned past those k. */
  lemma OrderTurns(pending: Pending, cursor: Option<PeerId>, k: nat)
    requires 0 < k <= |Order(pending, cursor)|
    ensures var order := Order(pending, cursor);
            Order(pending, Some(order[k - 1])) == Turned(order, k)
  {
    hide Ascending, Order, Turned;
    var ring, order := Ascending(pending.Keys), Order(pending, cursor);
    var cut := OrderCut(pending, cursor);
    var next := OrderAt(pending, order[k - 1]);
    TurnedAt(ring, cut, k);
    TurnedTwice(ring, cut, k);
  }

  /** Each poll goes on exactly where the last one stopped. */
  lemma PollContinues(tickets: Tickets, now: int, pending: Pending, cursor: Option<PeerId>) returns (k: nat)
    ensures var order := Order(pending, cursor);
            var r := Poll(tickets, now, pending, cursor);
            && k <= |order| && (order != [] ==> k > 0)
            && r.selected == LiveIds(tickets, now, pending, order[..k])
            && Order(pending, NextCursor(cursor, r)) == Turned(order, k)
  {
    hide Order, Poll, LiveIds, PageBytes, EndsAt;
    var order := Order(pending, cursor);
    k := PollReads(tickets, now, pending, cursor);
    if k > 0 {
      OrderTurns(pending, cursor, k);
    } else {
      assert Turned(order, k) == order;
    }
  }

  datatype Moment = Moment(tickets: Tickets, now: int)

  /** The pages of successive polls while the pending offers stay the same. */
  function Pages(pending: Pending, cursor: Option<PeerId>, polls: seq<Moment>): (pages: seq<seq<TicketId>>)
    ensures |pages| == |polls|
    decreases |polls|
  {
    if polls == [] then []
    else
      var r := Poll(polls[0].tickets, polls[0].now, pending, cursor);
      [r.selected] + Pages(pending, NextCursor(cursor, r), polls[1..])
  }

  lemma {:induction false} ServedByPosition(pending: Pending, cursor: Option<PeerId>, polls: seq<Moment>, x: PeerId,
          at: nat)
    returns (m: nat)
    requires at < |Order(pending, cursor)| && Order(pending, cursor)[at] == x && at < |polls|
    requires forall p :: p in polls ==> x in pending && LiveOffer(p.tickets, pending[x], p.now)
    ensures m <= at && x in pending && pending[x] in Pages(pending, cursor, polls)[m]
    decreases at
  {
    hide Order, Poll, LiveIds, LiveOffer;
    var order, p := Order(pending, cursor), polls[0];
    var r := Poll(p.tickets, p.now, pending, cursor);
    var k := PollContinues(p.tickets, p.now, pending, cursor);
    assert p in polls;
    if at < k {
      m := 0;
      assert order[..k][at] == x;
      LiveIdsHas(p.tickets, p.now, pending, order[..k], x);
    } else {
      var next := Order(pending, NextCursor(cursor, r));
      assert next[at - k] == order[at];
      m := ServedByPosition(pending, NextCursor(cursor, r), polls[1..], x, at - k);
      m := m + 1;
    }
  }

  /** Every offer that stays live is served within as many polls as there are offers. */
  lemma ServedInTime(pending: Pending, cursor: Option<PeerId>, polls: seq<Moment>, x: PeerId) returns (m: nat)
    requires x in pending && |polls| >= |pending|
    requires forall p :: p in polls ==>
               pending[x] in p.tickets && !p.tickets[pending[x]].accepted && p.tickets[pending[x]].expiresAt > p.now
    ensures m < |pending| && pending[x] in Pages(pending, cursor, polls)[m]
  {
    assert forall p :: p in polls ==> LiveOffer(p.tickets, pending[x], p.now);
    hide Pages, LiveOffer;
    var order := Order(pending, cursor);
    OrderLength(pending, cursor);
    assert x in order;
    var at :| 0 <= at < |order| && order[at] == x;
    m := ServedByPosition(pending, cursor, polls, x, at);
  }

  lemma OrderLength(pending: Pending, cursor: Option<PeerId>)
    ensures |Order(pending, cursor)| == |pending|
  {
    hide Ascending;
    var _ := OrderCut(pending, cursor);
    assert |pending.Keys| == |pending|;
  }

  /** No initiator comes twice in an order, so none is served twice in a page. */
  lemma OrderDistinct(pending: Pending, cursor: Option<PeerId>)
    ensures forall i, j :: 0 <= i < j < |Order(pending, cursor)| ==>
            Order(pending, cursor)[i] != Order(pending, cursor)[j]
  {
    hide Ascending, Order;
    var cut := OrderCut(pending, cursor);
    AscendingIncreases(pending.Keys);
    TurnedDistinct(Ascending(pending.Keys), cut);
  }

  lemma TurnedDistinct(ring: seq<PeerId>, cut: nat)
    requires Increasing(ring) && cut <= |ring|
    ensures forall i, j :: 0 <= i < j < |ring| ==> Turned(ring, cut)[i] != Turned(ring, cut)[j]
  {
    var t, n := Turned(ring, cut), |ring|;
    forall i, j | 0 <= i < j < n ensures t[i] != t[j] {
      var i', j' := if i < n - cut then cut + i else i - (n - cut), if j < n - cut then cut + j else j - (n - cut);
      assert t[i] == ring[i'] && t[j] == ring[j'] && i' != j';
      assert i' < j' ==> ring[i'] < ring[j'];
    }
  }

  // ---------------------------------------------------------------- what the client is sent

  /** A page over nothing but live offers is empty only if there are none. */
  lemma PageNotEmpty(tickets: Tickets, now: int, pending: Pending, cursor: Option<PeerId>)
    requires pending != map[]
    requires forall x :: x in pending ==>
               pending[x] in tickets && !tickets[pending[x]].accepted && tickets[pending[x]].expiresAt > now
    ensures Poll(tickets, now, pending, cursor).selected != []
  {
    assert forall x :: x in pending ==> LiveOffer(tickets, pending[x], now);
    hide Order, Poll, LiveIds, PageBytes, EndsAt, LiveOffer;
    var order := Order(pending, cursor);
    OrderLength(pending, cursor);
    var k := PollReads(tickets, now, pending, cursor);
    assert order[..k][0] in order;
    LiveIdsHas(tickets, now, pending, order[..k], order[0]);
  }

  /** Every page's response body fits what clients read. */
  lemma PageFits(tickets: Tickets, now: int, pending: Pending, cursor: Option<PeerId>, names: TicketId -> string)
    requires forall id :: id in tickets ==> EnvelopeOk(tickets[id].terms) && |names(id)| == TICKET_ID_CHARS
    ensures var ids := Poll(tickets, now, pending, cursor).selected;
            && (forall id :: id in ids ==> id in tickets)
            && |PageText(names, tickets, ids)| <= CLIENT_RESPONSE_BYTES
  {
    hide Order, Poll, LiveIds, EndsAt, Joined, ItemLength;
    var r := Poll(tickets, now, pending, cursor);
    var k := PollReads(tickets, now, pending, cursor);
    JoinedLength(names, tickets, r.selected);
    if |r.selected| == 1 {
      assert r.selected[..0] == [];
      ItemFits(tickets[r.selected[0]].terms);
    }
  }

  /** One offer always fits a page. */
  lemma ItemFits(t: Terms)
    requires EnvelopeOk(t)
    ensures ItemLength(t) <= MAX_RELAY_MAILBOX_PAGE_BYTES
  {
    SignedLength(t.epoch);
  }
}
