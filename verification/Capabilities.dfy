/**
 Capability registrations: an owner publishes, under a capability, the address a peer may
 look it up at. Registrations are refreshed by every heartbeat and arrive in any order; a
 late one must not bring back an address its owner has since replaced.
 */
module Capabilities {
  import opened Options

  const ENTRY_TTL: int := 300
  const MAX_STORE_ENTRIES: nat := 100_000

  type Signature = nat

  datatype Binding = Binding(ip: nat, port: nat, peer: nat, openIntro: bool, owner: nat, epoch: int)

  datatype Proof = Proof(ts: int, sig: Signature)

  datatype Entry = Entry(binding: Binding, expiresAt: int, legacyProof: Option<Proof>, v4Proof: Option<Proof>) {
    predicate Live(now: int) { expiresAt > now }

    /** Some stored proof was signed at `ts` or later. */
    predicate ProvenSince(ts: int) {
      (legacyProof.Some? && legacyProof.value.ts >= ts) || (v4Proof.Some? && v4Proof.value.ts >= ts)
    }
  }

  /** A verified registration. A version 4 one may carry a version 3 signature as well. */
  datatype Registration = Registration(binding: Binding, ts: int, isV4: bool, sig: Signature,
                                       legacySig: Option<Signature>)

  datatype Answer = Ok | Forbidden | Conflict | Full

  // ---------------------------------------------------------------- one capability

  function KeepNewest(slot: Option<Proof>, ts: int, sig: Signature): Option<Proof> {
    if slot.None? || slot.value.ts <= ts then Some(Proof(ts, sig)) else slot
  }

  function WithProofs(e: Entry, r: Registration): Entry {
    if !r.isV4 then e.(legacyProof := KeepNewest(e.legacyProof, r.ts, r.sig))
    else
      e.(v4Proof := KeepNewest(e.v4Proof, r.ts, r.sig),
         legacyProof := if r.legacySig.Some? then KeepNewest(e.legacyProof, r.ts, r.legacySig.value) else e.legacyProof)
  }

  predicate OwnerAllows(e: Entry, owner: nat, now: int) { !e.Live(now) || e.binding.owner == owner }

  predicate Superseded(e: Entry, r: Registration, now: int) {
    e.Live(now) && e.binding.owner == r.binding.owner && e.ProvenSince(r.ts)
  }

  /** The entry after one registration under its capability; `room` says whether the store can
      take a capability it does not hold. */
  function Register(held: Option<Entry>, r: Registration, now: int, room: bool): (Option<Entry>, Answer) {
    if !r.binding.openIntro && held.Some? && !OwnerAllows(held.value, r.binding.owner, now) then (held, Forbidden)
    else if held.None? && !room then (held, Full)
    else
      var matching := held.Some? && held.value.binding == r.binding;
      if held.Some? && Superseded(held.value, r, now) && !matching then (held, Conflict)
      else
        var e := if matching then held.value else Entry(r.binding, now + ENTRY_TTL, None, None);
        (Some(WithProofs(e.(expiresAt := now + ENTRY_TTL), r)), Ok)
  }

  // ---------------------------------------------------------------- runs

  datatype Event = Arrives(r: Registration, now: int, room: bool) | Sweep(now: int)

  /** The entry, and what has been accepted since it went live under its present owner. */
  datatype History = History(held: Option<Entry>, reign: seq<Registration>)

  function Next(h: History, ev: Event): History {
    match ev
    case Arrives(r, now, room) =>
      var (held, answer) := Register(h.held, r, now, room);
      if answer != Ok then h
      else if h.held.Some? && h.held.value.Live(now) && h.held.value.binding.owner == r.binding.owner then
        History(held, h.reign + [r])
      else History(held, [r])
    case Sweep(now) => if h.held.Some? && !h.held.value.Live(now) then History(None, []) else h
  }

  function After(events: seq<Event>): History {
    if events == [] then History(None, []) else Next(After(events[..|events| - 1]), events[|events| - 1])
  }

  /** The leader's timestamp is the greatest, and whoever shares it agrees with what is stored. */
  ghost predicate Leads(reign: seq<Registration>, i: nat, binding: Binding)
    requires i < |reign|
  {
    && reign[i].binding == binding
    && forall j :: 0 <= j < |reign| ==>
         reign[j].ts <= reign[i].ts && (reign[j].ts == reign[i].ts ==> reign[j].binding == binding)
  }

  ghost predicate Coherent(h: History, i: nat) {
    h.held.Some? ==>
      && i < |h.reign| && Leads(h.reign, i, h.held.value.binding)
      && (forall j :: 0 <= j < |h.reign| ==>
            h.held.value.ProvenSince(h.reign[j].ts) && h.reign[j].binding.owner == h.held.value.binding.owner)
  }

  /** Storing a registration's proof forgets nothing signed later. */
  lemma ProofsStay(e: Entry, r: Registration, ts: int)
    ensures e.ProvenSince(ts) ==> WithProofs(e, r).ProvenSince(ts)
    ensures WithProofs(e, r).ProvenSince(r.ts)
  {
  }

  lemma ArrivalCoherent(h: History, i: nat, r: Registration, now: int, room: bool) returns (i': nat)
    requires Coherent(h, i)
    ensures Coherent(Next(h, Arrives(r, now, room)), i')
  {
    i' := i;
    var (held, answer) := Register(h.held, r, now, room);
    if answer == Ok {
      if h.held.Some? && h.held.value.Live(now) && h.held.value.binding.owner == r.binding.owner {
        var e := h.held.value;
        if e.binding != r.binding {
          // not superseded: signed after everything accepted so far
          assert forall j :: 0 <= j < |h.reign| ==> h.reign[j].ts < r.ts;
          i' := |h.reign|;
        } else if h.reign[i].ts < r.ts {
          i' := |h.reign|;
        }
        ReignGrows(h, i, r, held.value, i');
      } else {
        i' := 0;
      }
    }
  }

  lemma ReignGrows(h: History, i: nat, r: Registration, e: Entry, i': nat)
    requires Coherent(h, i) && h.held.Some? && h.held.value.binding.owner == r.binding.owner == e.binding.owner
    requires e.binding == r.binding && e.ProvenSince(r.ts)
    requires if h.held.value.binding == r.binding then i' == if h.reign[i].ts < r.ts then |h.reign| else i
             else i' == |h.reign| && forall j :: 0 <= j < |h.reign| ==> h.reign[j].ts < r.ts
    requires h.held.value.binding == r.binding ==> forall ts :: h.held.value.ProvenSince(ts) ==> e.ProvenSince(ts)
    ensures Coherent(History(Some(e), h.reign + [r]), i')
  {
    var reign := h.reign + [r];
    forall j | 0 <= j < |reign| ensures e.ProvenSince(reign[j].ts) {
      if j < |h.reign| { assert h.held.value.ProvenSince(h.reign[j].ts); }
    }
  }

  lemma {:induction false} RunCoherent(events: seq<Event>) returns (i: nat)
    ensures Coherent(After(events), i)
  {
    i := 0;
    if events != [] {
      hide Coherent, Register;
      var init, ev := events[..|events| - 1], events[|events| - 1];
      i := RunCoherent(init);
      match ev
      case Arrives(r, now, room) => i := ArrivalCoherent(After(init), i, r, now, room);
      case Sweep(now) => SweepCoherent(After(init), i, now);
    }
  }

  lemma SweepCoherent(h: History, i: nat, now: int)
    requires Coherent(h, i)
    ensures Coherent(Next(h, Sweep(now)), i)
  {
  }

  /** In whatever order registrations come, what is stored is what the accepted one with the
      greatest timestamp says, since the entry went live under its owner. */
  lemma GreatestTimestampStands(events: seq<Event>) returns (i: nat)
    requires After(events).held.Some?
    ensures var h := After(events); i < |h.reign| && Leads(h.reign, i, h.held.value.binding)
  {
    i := RunCoherent(events);
  }

  /** What a live entry's owner has proven is never forgotten while it stays the owner. */
  lemma NewestProofNeverFalls(e: Entry, r: Registration, now: int, room: bool, ts: int)
    requires e.Live(now) && e.ProvenSince(ts)
    ensures var held := Register(Some(e), r, now, room).0;
            held.Some? && (held.value.binding.owner == e.binding.owner ==> held.value.ProvenSince(ts))
  {
    ProofsStay(e.(expiresAt := now + ENTRY_TTL), r, ts);
  }

  /** A live entry changes owner only by a claim proven to own the capability. */
  lemma OwnerIsPinned(e: Entry, r: Registration, now: int, room: bool)
    requires e.Live(now)
    ensures var held := Register(Some(e), r, now, room).0;
            && held.Some?
            && (held.value.binding.owner != e.binding.owner ==>
                  r.binding.openIntro && held.value.binding == r.binding)
  {
  }

  // ---------------------------------------------------------------- what is granted

  function AnswerTo(events: seq<Event>, i: nat): Answer
    requires i < |events| && events[i].Arrives?
  {
    Register(After(events[..i]).held, events[i].r, events[i].now, events[i].room).1
  }

  /** Some registration accepted in the run was signed at `ts`. */
  ghost predicate AcceptedAt(events: seq<Event>, ts: int) {
    exists i :: 0 <= i < |events| && events[i].Arrives? && AnswerTo(events, i) == Ok && events[i].r.ts == ts
  }

  lemma AcceptedEarlier(events: seq<Event>, ts: int)
    requires events != [] && AcceptedAt(events[..|events| - 1], ts)
    ensures AcceptedAt(events, ts)
  {
    hide After, Register;
    var init := events[..|events| - 1];
    var i :| 0 <= i < |init| && init[i].Arrives? && AnswerTo(init, i) == Ok && init[i].r.ts == ts;
    assert init[..i] == events[..i];
    assert AnswerTo(events, i) == Ok;
  }

  lemma AcceptedLast(events: seq<Event>)
    requires events != [] && events[|events| - 1].Arrives? && AnswerTo(events, |events| - 1) == Ok
    ensures AcceptedAt(events, events[|events| - 1].r.ts)
  {
  }

  /** Every proof an entry carries is of a registration accepted before. */
  ghost predicate ProofsAccepted(held: Option<Entry>, events: seq<Event>) {
    held.Some? ==>
      && (held.value.legacyProof.Some? ==> AcceptedAt(events, held.value.legacyProof.value.ts))
      && (held.value.v4Proof.Some? ==> AcceptedAt(events, held.value.v4Proof.value.ts))
  }

  lemma {:induction false} RunProofs(events: seq<Event>)
    ensures ProofsAccepted(After(events).held, events)
  {
    if events != [] {
      var init, ev := events[..|events| - 1], events[|events| - 1];
      RunProofs(init);
      var held := After(init).held;
      hide AcceptedAt;
      forall ts | AcceptedAt(init, ts) ensures AcceptedAt(events, ts) { AcceptedEarlier(events, ts); }
      if ev.Arrives? && AnswerTo(events, |events| - 1) == Ok { AcceptedLast(events); }
    }
  }

  /** The capability's owner, or whoever has proven to own it, may register; so may anyone once the
      entry has expired. */
  predicate MayRegister(held: Option<Entry>, b: Binding, now: int) {
    held.None? || held.value.expiresAt <= now || held.value.binding.owner == b.owner || b.openIntro
  }

  /** In every run a registration signed after all that were accepted before it takes effect, if its
      owner may register and there is room: what it says stands, for the whole time to live. */
  lemma NewestTakesEffect(events: seq<Event>, r: Registration, now: int, room: bool)
    requires forall ts :: AcceptedAt(events, ts) ==> ts < r.ts
    requires MayRegister(After(events).held, r.binding, now) && (After(events).held.None? ==> room)
    ensures var (held, answer) := Register(After(events).held, r, now, room);
            && answer == Ok && held.Some? && held.value.binding == r.binding
            && (forall t :: held.value.Live(t) <==> t < now + 300)
  {
    RunProofs(events);
    hide AcceptedAt;
  }

  /** A heartbeat that repeats what is stored is always accepted, whenever it was signed, and starts
      the time to live anew. */
  lemma HeartbeatExtends(e: Entry, r: Registration, now: int, room: bool)
    requires e.binding == r.binding
    ensures var (held, answer) := Register(Some(e), r, now, room);
            answer == Ok && held.Some? && held.value.binding == e.binding && held.value.expiresAt == now + 300
  {
  }

  /** A stranger to a live capability is turned away, and so is an owner with an older word than one
      accepted before. */
  lemma RefusedMeans(events: seq<Event>, r: Registration, now: int, room: bool)
    ensures var held := After(events).held;
            var answer := Register(held, r, now, room).1;
            && (answer == Forbidden <==> !MayRegister(held, r.binding, now))
            && (answer == Full <==> held.None? && !room)
            && (answer == Conflict ==>
                  && held.Some? && held.value.binding.owner == r.binding.owner && held.value.binding != r.binding
                  && exists ts :: AcceptedAt(events, ts) && r.ts <= ts)
  {
    RunProofs(events);
    hide AcceptedAt;
  }

  ghost predicate Steady(events: seq<Event>) {
    forall i, j :: 0 <= i < j < |events| ==> events[i].now <= events[j].now
  }

  /** Once accepted, a registration keeps its capability live for the whole time to live, through any
      sweeps and whatever else arrives. */
  lemma {:induction false} StaysLive(events: seq<Event>, i: nat, j: nat)
    requires Steady(events) && i < j <= |events| && events[i].Arrives? && AnswerTo(events, i) == Ok
    requires forall k :: i < k < j ==> events[k].now < events[i].now + 300
    ensures After(events[..j]).held.Some? && After(events[..j]).held.value.expiresAt >= events[i].now + 300
    decreases j
  {
    assert events[..j][..j - 1] == events[..j - 1];
    if i < j - 1 { StaysLive(events, i, j - 1); }
  }

  // ---------------------------------------------------------------- the store

  function LiveOnly(entries: map<nat, Entry>, now: int): map<nat, Entry> {
    map k | k in entries && entries[k].Live(now) :: entries[k]
  }

  /** A new capability fits at once, or once what has expired is dropped. */
  predicate HasRoom(entries: map<nat, Entry>, now: int, mayPurge: bool) {
    |entries| < MAX_STORE_ENTRIES || (mayPurge && |LiveOnly(entries, now)| < MAX_STORE_ENTRIES)
  }

  class CapabilityStore {
    var entries: map<nat, Entry>

    constructor ()
      ensures entries == map[]
    {
      entries := map[];
    }

    function Held(key: nat): Option<Entry>
      reads this
    {
      if key in entries then Some(entries[key]) else None
    }

    /** One registration under the store's lock. `mayPurge` is the purge throttle's leave to drop
        what has expired when the store is full. */
    method RegisterUnder(key: nat, r: Registration, now: int, mayPurge: bool) returns (answer: Answer)
      modifies this
      ensures (Held(key), answer) == Register(old(Held(key)), r, now, HasRoom(old(entries), now, mayPurge))
      ensures answer == Full <==> key !in old(entries) && |old(entries)| >= MAX_STORE_ENTRIES
                                  && (mayPurge ==> |LiveOnly(old(entries), now)| >= MAX_STORE_ENTRIES)
      ensures forall k :: k != key && k in old(entries) && old(entries)[k].Live(now) ==> Held(k) == old(Held(k))
      ensures forall k :: k != key && k in entries ==> Held(k) == old(Held(k))
    {
      if !r.binding.openIntro && key in entries && !OwnerAllows(entries[key], r.binding.owner, now) {
        return Forbidden;
      }
      if |entries| >= MAX_STORE_ENTRIES && key !in entries {
        if mayPurge { entries := LiveOnly(entries, now); }
        if |entries| >= MAX_STORE_ENTRIES { return Full; }
      }
      var matching := key in entries && entries[key].binding == r.binding;
      if key in entries && Superseded(entries[key], r, now) && !matching { return Conflict; }
      if !matching { entries := entries[key := Entry(r.binding, now + ENTRY_TTL, None, None)]; }
      entries := entries[key := WithProofs(entries[key].(expiresAt := now + ENTRY_TTL), r)];
      answer := Ok;
    }
  }
}
