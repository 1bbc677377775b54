/**
 How registry mutations reach disk, and when a request may be answered 200.

 Mutations need the write lock. A flusher takes a snapshot under a read lock:
 it clears `dirty`, serialises, and draws a ticket. Snapshots are then written
 on blocking threads in any order and may fail. The generation published moves up
 with each write that lands; one that fails leaves the registry dirty.
 */
module Persistence {
  import opened Seqs

  /** One mutation; a `durable` one holds back the answer to its request until it is written. */
  datatype Change = Change(what: nat, durable: bool)

  datatype Phase = Queued | Landed | Failed

  /** A serialised snapshot of the registry on its way to disk. */
  datatype Job = Job(snapshot: seq<Change>, phase: Phase) {
    function Generation(): nat { |snapshot| }
  }

  datatype Registry = Registry(
    /** Every mutation so far; the generation is its length. */
    history: seq<Change>,
    durableGeneration: nat,
    dirty: bool,
    closed: bool,
    /** Flushers between clearing `dirty` and drawing a ticket, holding read locks. */
    taking: set<nat>,
    /** The generation each ticket's snapshot covers, in ticket order from 1. */
    tickets: seq<nat>,
    /** Snapshots drawn and not yet done with, by ticket. */
    jobs: map<nat, Job>,
    /** Highest ticket written. */
    written: nat,
    disk: seq<Change>,
    persisted: nat,
    /** Requests waiting for their answer, with the durable generation each sampled. */
    waiting: map<nat, nat>,
    /** Requests answered 200. */
    acknowledged: set<nat>)

  const START := Registry([], 0, false, false, {}, [], map[], 0, [], 0, map[], {})

  datatype Step =
    /** A handler under the write lock: its mutations, then the sample it will wait for. */
    | Handle(request: nat, changes: seq<Change>)
    | TakeSwap(flusher: nat)
    | TakeFail(flusher: nat)
    | TakeTicket(flusher: nat)
    /** `io`: whether the atomic write succeeds, if one is attempted. */
    | Write(ticket: nat, io: bool)
    | Publish(ticket: nat)
    | Rearm(ticket: nat)
    | Answer(request: nat)
    | Close

  predicate Enabled(s: Registry, step: Step) {
    match step
    case Handle(request, changes) => s.taking == {} && request !in s.waiting && (s.closed ==> changes == [])
    case TakeSwap(flusher) => flusher !in s.taking
    case TakeFail(flusher) => flusher in s.taking
    case TakeTicket(flusher) => flusher in s.taking
    case Write(ticket, _) => ticket in s.jobs && s.jobs[ticket].phase == Queued
    case Publish(ticket) => ticket in s.jobs && s.jobs[ticket].phase == Landed
    case Rearm(ticket) => ticket in s.jobs && s.jobs[ticket].phase == Failed
    case Answer(request) => request in s.waiting && s.waiting[request] <= s.persisted
    case Close => s.taking == {}
  }

  function LastDurable(changes: seq<Change>, base: nat, otherwise: nat): nat {
    if changes == [] then otherwise
    else if changes[|changes| - 1].durable then base + |changes|
    else LastDurable(changes[..|changes| - 1], base, otherwise)
  }

  function Next(s: Registry, step: Step): Registry
    requires Enabled(s, step)
  {
    match step
    case Handle(request, changes) =>
      var durable := LastDurable(changes, |s.history|, s.durableGeneration);
      s.(history := s.history + changes, dirty := s.dirty || changes != [], durableGeneration := durable,
         waiting := s.waiting[request := durable])
    case TakeSwap(flusher) => if s.dirty then s.(dirty := false, taking := s.taking + {flusher}) else s
    case TakeFail(flusher) => s.(dirty := true, taking := s.taking - {flusher})
    case TakeTicket(flusher) =>
      s.(taking := s.taking - {flusher}, tickets := s.tickets + [|s.history|],
         jobs := s.jobs[|s.tickets| + 1 := Job(s.history, Queued)])
    case Write(ticket, io) =>
      var job := s.jobs[ticket];
      if s.written >= ticket then s.(jobs := s.jobs[ticket := job.(phase := Landed)])
      else if !io then s.(jobs := s.jobs[ticket := job.(phase := Failed)])
      else
        s.(jobs := s.jobs[ticket := job.(phase := Landed)], written := ticket, disk := job.snapshot)
    case Publish(ticket) =>
      s.(jobs := s.jobs - {ticket},
         persisted := if s.jobs[ticket].Generation() > s.persisted then s.jobs[ticket].Generation() else s.persisted)
    case Rearm(ticket) => s.(jobs := s.jobs - {ticket}, dirty := true)
    case Answer(request) => s.(waiting := s.waiting - {request}, acknowledged := s.acknowledged + {request})
    case Close => s.(closed := true)
  }

  ghost predicate IsRun(steps: seq<Step>, states: seq<Registry>) {
    && |states| == |steps| + 1
    && states[0] == START
    && forall i :: 0 <= i < |steps| ==> Enabled(states[i], steps[i]) && states[i + 1] == Next(states[i], steps[i])
  }

  // ---------------------------------------------------------------- invariant

  lemma PrefixGrows(a: seq<Change>, b: seq<Change>, more: seq<Change>)
    requires IsPrefix(a, b)
    ensures IsPrefix(a, b + more)
  {
    assert (b + more)[..|a|] == b[..|a|];
  }

  /** Two prefixes of one history: the shorter is a prefix of the longer. */
  lemma PrefixesNest(a: seq<Change>, b: seq<Change>, history: seq<Change>)
    requires IsPrefix(a, history) && IsPrefix(b, history) && |a| <= |b|
    ensures IsPrefix(a, b)
  {
    assert b[..|a|] == history[..|a|];
  }

  lemma PrefixTransitive(a: seq<Change>, b: seq<Change>, c: seq<Change>)
    requires IsPrefix(a, b) && IsPrefix(b, c)
    ensures IsPrefix(a, c)
  {
    assert c[..|a|] == b[..|a|];
  }

  ghost predicate Ascending(tickets: seq<nat>, top: nat) {
    && (forall i, j :: 0 <= i <= j < |tickets| ==> tickets[i] <= tickets[j])
    && (forall i :: 0 <= i < |tickets| ==> tickets[i] <= top)
  }

  lemma AscendingAt(tickets: seq<nat>, top: nat, i: nat, j: nat)
    requires Ascending(tickets, top) && i <= j < |tickets|
    ensures tickets[i] <= tickets[j] <= top
  {
  }

  lemma AscendingSnoc(tickets: seq<nat>, top: nat)
    requires Ascending(tickets, top)
    ensures Ascending(tickets + [top], top)
  {
  }

  lemma AscendingUnder(tickets: seq<nat>, top: nat, higher: nat)
    requires Ascending(tickets, top) && top <= higher
    ensures Ascending(tickets, higher)
  {
  }

  ghost predicate TicketsOk(s: Registry) {
    && Ascending(s.tickets, |s.history|)
    && (forall t :: t in s.jobs ==>
          && 1 <= t <= |s.tickets| && s.jobs[t].Generation() == s.tickets[t - 1]
          && IsPrefix(s.jobs[t].snapshot, s.history))
  }

  /** The disk holds the snapshot of the newest ticket written. */
  ghost predicate DiskOk(s: Registry) {
    && s.written <= |s.tickets|
    && |s.disk| == (if s.written == 0 then 0 else s.tickets[s.written - 1])
    && IsPrefix(s.disk, s.history)
    && s.persisted <= |s.disk|
    && (forall t :: t in s.jobs && s.jobs[t].phase == Landed ==> s.jobs[t].Generation() <= |s.disk|)
  }

  /** Some flusher or snapshot under way will bring the disk up to `s.history`. */
  ghost predicate Covered(s: Registry) {
    || s.taking != {}
    || exists t :: t in s.jobs && s.jobs[t].phase != Landed && s.jobs[t].Generation() == |s.history|
  }

  ghost predicate DurableOk(s: Registry) {
    && s.durableGeneration <= |s.history|
    && (forall p :: 0 <= p < |s.history| && s.history[p].durable ==> p < s.durableGeneration)
    && (forall r :: r in s.waiting ==> s.waiting[r] <= s.durableGeneration)
  }

  ghost predicate RegistryInv(s: Registry) {
    && TicketsOk(s) && DiskOk(s) && DurableOk(s)
    && (|s.disk| < |s.history| ==> s.dirty || Covered(s))
  }

  lemma {:induction false} LastDurableCovers(changes: seq<Change>, base: nat, otherwise: nat)
    requires otherwise <= base
    ensures otherwise <= LastDurable(changes, base, otherwise) <= base + |changes|
    ensures forall p :: 0 <= p < |changes| && changes[p].durable ==> base + p < LastDurable(changes, base, otherwise)
  {
    if changes != [] { LastDurableCovers(changes[..|changes| - 1], base, otherwise); }
  }

  lemma HandleTickets(s: Registry, request: nat, changes: seq<Change>)
    requires TicketsOk(s) && Enabled(s, Handle(request, changes))
    ensures TicketsOk(Next(s, Handle(request, changes)))
  {
    hide IsPrefix, Ascending, LastDurable;
    var s' := Next(s, Handle(request, changes));
    AscendingUnder(s.tickets, |s.history|, |s'.history|);
    forall t | t in s.jobs
      ensures IsPrefix(s.jobs[t].snapshot, s'.history)
    {
      PrefixGrows(s.jobs[t].snapshot, s.history, changes);
    }
  }

  lemma HandleDurable(s: Registry, request: nat, changes: seq<Change>)
    requires DurableOk(s) && Enabled(s, Handle(request, changes))
    ensures DurableOk(Next(s, Handle(request, changes)))
  {
    hide LastDurable;
    var s' := Next(s, Handle(request, changes));
    LastDurableCovers(changes, |s.history|, s.durableGeneration);
    assert forall p :: |s.history| <= p < |s'.history| ==> s'.history[p] == changes[p - |s.history|];
  }

  lemma HandleInv(s: Registry, request: nat, changes: seq<Change>)
    requires RegistryInv(s) && Enabled(s, Handle(request, changes))
    ensures RegistryInv(Next(s, Handle(request, changes)))
  {
    HandleTickets(s, request, changes);
    HandleDurable(s, request, changes);
    hide IsPrefix, TicketsOk, DurableOk, LastDurable;
    var s' := Next(s, Handle(request, changes));
    PrefixGrows(s.disk, s.history, changes);
    if changes == [] {
      assert s'.history == s.history;
      assert Covered(s) ==> Covered(s');
    }
  }

  lemma TakeTicketTickets(s: Registry, flusher: nat)
    requires TicketsOk(s) && Enabled(s, TakeTicket(flusher))
    ensures TicketsOk(Next(s, TakeTicket(flusher)))
  {
    assert IsPrefix(s.history, s.history);
    hide IsPrefix, Ascending;
    AscendingSnoc(s.tickets, |s.history|);
  }

  lemma TakeTicketInv(s: Registry, flusher: nat)
    requires RegistryInv(s) && Enabled(s, TakeTicket(flusher))
    ensures RegistryInv(Next(s, TakeTicket(flusher)))
  {
    hide IsPrefix, Ascending;
    TakeTicketTickets(s, flusher);
    var t, s' := |s.tickets| + 1, Next(s, TakeTicket(flusher));
    assert t in s'.jobs && s'.jobs[t].phase != Landed && s'.jobs[t].Generation() == |s'.history|;
    hide TicketsOk;
  }

  lemma WriteTickets(s: Registry, ticket: nat, io: bool)
    requires TicketsOk(s) && Enabled(s, Write(ticket, io))
    ensures TicketsOk(Next(s, Write(ticket, io)))
  {
    hide IsPrefix, Ascending;
  }

  lemma WriteKeeps(s: Registry, ticket: nat, io: bool)
    requires TicketsOk(s) && DiskOk(s) && Enabled(s, Write(ticket, io))
    ensures var s' := Next(s, Write(ticket, io));
            TicketsOk(s') && DiskOk(s') && IsPrefix(s.disk, s'.disk) && |s.disk| <= |s'.disk|
  {
    hide IsPrefix, Ascending;
    var s' := Next(s, Write(ticket, io));
    WriteTickets(s, ticket, io);
    if s.written >= ticket { AscendingAt(s.tickets, |s.history|, ticket - 1, s.written - 1); }
    else if s.written > 0 { AscendingAt(s.tickets, |s.history|, s.written - 1, ticket - 1); }
    PrefixesNest(s.disk, s'.disk, s.history);
  }

  lemma WriteCovers(s: Registry, ticket: nat, io: bool)
    requires RegistryInv(s) && Enabled(s, Write(ticket, io))
    ensures var s' := Next(s, Write(ticket, io)); |s'.disk| < |s'.history| ==> s'.dirty || Covered(s')
  {
    hide IsPrefix, DurableOk, Ascending;
    var s' := Next(s, Write(ticket, io));
    WriteKeeps(s, ticket, io);
    if |s'.disk| < |s'.history| && !s'.dirty && s.taking == {} {
      var t :| t in s.jobs && s.jobs[t].phase != Landed && s.jobs[t].Generation() == |s.history|;
      assert t in s'.jobs && s'.jobs[t].phase != Landed && s'.jobs[t].Generation() == |s'.history|;
    }
  }

  lemma WriteInv(s: Registry, ticket: nat, io: bool)
    requires RegistryInv(s) && Enabled(s, Write(ticket, io))
    ensures RegistryInv(Next(s, Write(ticket, io)))
  {
    hide IsPrefix, TicketsOk, DiskOk, Covered;
    WriteKeeps(s, ticket, io);
    WriteCovers(s, ticket, io);
  }

  /** The steps that leave history, tickets and disk alone. */
  lemma OtherKeeps(s: Registry, step: Step)
    requires !step.Handle? && !step.TakeTicket? && !step.Write?
    requires TicketsOk(s) && DiskOk(s) && DurableOk(s) && Enabled(s, step)
    ensures var s' := Next(s, step); TicketsOk(s') && DiskOk(s') && DurableOk(s')
  {
    hide IsPrefix, Ascending;
    var s' := Next(s, step);
    assert forall t :: t in s'.jobs ==> t in s.jobs && s'.jobs[t] == s.jobs[t];
  }

  lemma OtherInv(s: Registry, step: Step)
    requires !step.Handle? && !step.TakeTicket? && !step.Write?
    requires RegistryInv(s) && Enabled(s, step)
    ensures RegistryInv(Next(s, step))
  {
    hide IsPrefix, TicketsOk, DiskOk, DurableOk;
    OtherKeeps(s, step);
    var s' := Next(s, step);
    if step.TakeSwap? && s.dirty {
      assert step.flusher in s'.taking;
    } else if |s'.disk| < |s'.history| && !s'.dirty && s.taking == {} {
      var t :| t in s.jobs && s.jobs[t].phase != Landed && s.jobs[t].Generation() == |s.history|;
      assert t in s'.jobs;
    }
  }

  lemma NextInv(s: Registry, step: Step)
    requires RegistryInv(s) && Enabled(s, step)
    ensures RegistryInv(Next(s, step))
  {
    hide RegistryInv, Next;
    match step {
      case Handle(request, changes) => HandleInv(s, request, changes);
      case Write(ticket, io) => WriteInv(s, ticket, io);
      case TakeTicket(flusher) => TakeTicketInv(s, flusher);
      case _ => OtherInv(s, step);
    }
  }

  // ---------------------------------------------------------------- every run

  /** In every interleaving: the published generation never passes the one on disk, and
      whenever the disk lags memory either `dirty` is set or something under way covers it. */
  lemma {:induction false} RunInv(steps: seq<Step>, states: seq<Registry>, i: nat)
    requires IsRun(steps, states) && i < |states|
    ensures RegistryInv(states[i])
  {
    hide Next;
    if i > 0 {
      RunInv(steps, states, i - 1);
      NextInv(states[i - 1], steps[i - 1]);
    }
  }

  lemma NextGrows(s: Registry, step: Step)
    requires RegistryInv(s) && Enabled(s, step)
    ensures IsPrefix(s.disk, Next(s, step).disk)
    ensures IsPrefix(s.history, Next(s, step).history)
  {
    if step.Write? { WriteKeeps(s, step.ticket, step.io); }
    if step.Handle? { PrefixGrows(s.history, s.history, step.changes); }
  }

  /** The disk never goes back, whatever order writes finish in and whichever fail. */
  lemma {:induction false} DiskNeverGoesBack(steps: seq<Step>, states: seq<Registry>, i: nat, j: nat)
    requires IsRun(steps, states) && i <= j < |states|
    ensures IsPrefix(states[i].disk, states[j].disk)
    ensures IsPrefix(states[i].history, states[j].history)
    decreases j
  {
    hide Next, RegistryInv;
    if i < j {
      DiskNeverGoesBack(steps, states, i, j - 1);
      RunInv(steps, states, j - 1);
      NextGrows(states[j - 1], steps[j - 1]);
      PrefixTransitive(states[i].disk, states[j - 1].disk, states[j].disk);
      PrefixTransitive(states[i].history, states[j - 1].history, states[j].history);
    }
  }

  lemma {:induction false} WaitingKeeps(steps: seq<Step>, states: seq<Registry>, i: nat, j: nat, request: nat)
    requires IsRun(steps, states) && i <= j < |states|
    requires request in states[i].waiting
    requires forall k :: i <= k < j ==> steps[k] != Answer(request)
    ensures request in states[j].waiting && states[j].waiting[request] == states[i].waiting[request]
    decreases j
  {
    if i < j { WaitingKeeps(steps, states, i, j - 1, request); }
  }

  /** A 200 means it: every durable mutation made up to the moment the request was
      handled — its own, or an earlier one it merely repeats — is on disk when the
      answer is given and ever after. */
  lemma AcknowledgedIsDurable(steps: seq<Step>, states: seq<Registry>, i: nat, j: nat, k: nat, p: nat)
    requires IsRun(steps, states) && i < j < k < |states|
    requires steps[i].Handle? && steps[j] == Answer(steps[i].request)
    requires forall m :: i < m < j ==> steps[m] != Answer(steps[i].request)
    requires p < |states[i + 1].history| && states[i + 1].history[p].durable
    ensures p < |states[k].disk| && states[k].disk[p] == states[i + 1].history[p]
  {
    var request := steps[i].request;
    RunInv(steps, states, i + 1);
    RunInv(steps, states, j);
    RunInv(steps, states, k);
    WaitingKeeps(steps, states, i + 1, j, request);
    DiskNeverGoesBack(steps, states, j, k);
    DiskNeverGoesBack(steps, states, i + 1, k);
    SampleCovers(states[i], steps[i], p);
  }

  /** A handler samples a generation past every durable mutation so far. */
  lemma SampleCovers(s: Registry, step: Step, p: nat)
    requires Enabled(s, step) && step.Handle?
    requires RegistryInv(Next(s, step))
    requires p < |Next(s, step).history| && Next(s, step).history[p].durable
    ensures p < Next(s, step).waiting[step.request]
  {
  }

  // ---------------------------------------------------------------- every request can be answered

  /** What is on disk and not yet published is with a write that has landed and is to be published. */
  ghost predicate LagHeld(s: Registry) {
    s.persisted < |s.disk| ==>
      exists t :: t in s.jobs && s.jobs[t].phase == Landed && s.jobs[t].Generation() == |s.disk|
  }

  lemma NextLagHeld(s: Registry, step: Step)
    requires RegistryInv(s) && LagHeld(s) && Enabled(s, step)
    ensures LagHeld(Next(s, step))
  {
    hide Ascending, IsPrefix, Covered, DurableOk, LastDurable;
    var s' := Next(s, step);
    if s'.persisted < |s'.disk| {
      if step.Write? && s'.disk != s.disk {
        assert step.ticket in s'.jobs && s'.jobs[step.ticket].phase == Landed;
      } else if s.persisted < |s.disk| {
        var t :| t in s.jobs && s.jobs[t].phase == Landed && s.jobs[t].Generation() == |s.disk|;
        assert t in s'.jobs || (step == Publish(t) && s'.persisted >= |s.disk|);
        assert step.TakeTicket? ==> |s.tickets| + 1 != t;
      }
    }
  }

  lemma {:induction false} RunLagHeld(steps: seq<Step>, states: seq<Registry>, i: nat)
    requires IsRun(steps, states) && i < |states|
    ensures LagHeld(states[i])
  {
    hide Next, LagHeld, RegistryInv;
    if i == 0 {
      StartLagHeld();
    } else {
      RunLagHeld(steps, states, i - 1);
      RunInv(steps, states, i - 1);
      NextLagHeld(states[i - 1], steps[i - 1]);
    }
  }

  lemma StartLagHeld()
    ensures LagHeld(START)
  {
  }

  /** Steps that one after the other are possible from `s`. */
  predicate Possible(s: Registry, steps: seq<Step>)
    decreases |steps|
  {
    steps == [] || (Enabled(s, steps[0]) && Possible(Next(s, steps[0]), steps[1..]))
  }

  function Reach(s: Registry, steps: seq<Step>): Registry
    requires Possible(s, steps)
    decreases |steps|
  {
    if steps == [] then s else Reach(Next(s, steps[0]), steps[1..])
  }

  lemma FirstStep(s: Registry, step: Step, rest: seq<Step>)
    requires Enabled(s, step) && Possible(Next(s, step), rest)
    ensures Possible(s, [step] + rest) && Reach(s, [step] + rest) == Reach(Next(s, step), rest)
  {
    assert ([step] + rest)[1..] == rest;
  }

  /** A request sampled no later than a landed write's snapshot can be answered once that is published. */
  lemma PublishAnswers(s: Registry, ticket: nat, request: nat)
    requires Enabled(s, Publish(ticket)) && request in s.waiting
    requires s.waiting[request] <= s.jobs[ticket].Generation()
    ensures Enabled(Next(s, Publish(ticket)), Answer(request))
  {
  }

  ghost predicate Answerable(s: Registry, steps: seq<Step>, request: nat) {
    Possible(s, steps) && Enabled(Reach(s, steps), Answer(request))
  }

  lemma ThenAnswerable(s: Registry, step: Step, rest: seq<Step>, request: nat)
    requires Enabled(s, step) && Answerable(Next(s, step), rest, request)
    ensures Answerable(s, [step] + rest, request)
  {
    hide Possible, Reach, Next, Enabled;
    FirstStep(s, step, rest);
  }

  lemma NowAnswerable(s: Registry, request: nat)
    requires Enabled(s, Answer(request))
    ensures Answerable(s, [], request)
  {
  }

  lemma FromLanded(s: Registry, ticket: nat, request: nat) returns (steps: seq<Step>)
    requires Enabled(s, Publish(ticket)) && request in s.waiting && s.waiting[request] <= s.jobs[ticket].Generation()
    ensures Answerable(s, steps, request)
  {
    hide Answerable;
    PublishAnswers(s, ticket, request);
    NowAnswerable(Next(s, Publish(ticket)), request);
    ThenAnswerable(s, Publish(ticket), [], request);
    steps := [Publish(ticket)] + [];
  }

  lemma FromQueued(s: Registry, ticket: nat, request: nat) returns (steps: seq<Step>)
    requires Enabled(s, Write(ticket, true)) && request in s.waiting
    requires s.waiting[request] <= s.jobs[ticket].Generation()
    ensures Answerable(s, steps, request)
  {
    hide Answerable;
    var rest := FromLanded(Next(s, Write(ticket, true)), ticket, request);
    ThenAnswerable(s, Write(ticket, true), rest, request);
    steps := [Write(ticket, true)] + rest;
  }

  lemma FromTaking(s: Registry, flusher: nat, request: nat) returns (steps: seq<Step>)
    requires RegistryInv(s) && flusher in s.taking && request in s.waiting
    ensures Answerable(s, steps, request)
  {
    hide Answerable;
    var rest := FromQueued(Next(s, TakeTicket(flusher)), |s.tickets| + 1, request);
    ThenAnswerable(s, TakeTicket(flusher), rest, request);
    steps := [TakeTicket(flusher)] + rest;
  }

  lemma FromDirty(s: Registry, request: nat) returns (steps: seq<Step>)
    requires RegistryInv(s) && s.dirty && request in s.waiting
    ensures Answerable(s, steps, request)
  {
    hide Answerable, RegistryInv;
    if flusher :| flusher in s.taking {
      steps := FromTaking(s, flusher, request);
    } else {
      NextInv(s, TakeSwap(0));
      var rest := FromTaking(Next(s, TakeSwap(0)), 0, request);
      ThenAnswerable(s, TakeSwap(0), rest, request);
      steps := [TakeSwap(0)] + rest;
    }
  }

  lemma FromFailed(s: Registry, ticket: nat, request: nat) returns (steps: seq<Step>)
    requires RegistryInv(s) && Enabled(s, Rearm(ticket)) && request in s.waiting
    ensures Answerable(s, steps, request)
  {
    hide Answerable, RegistryInv;
    NextInv(s, Rearm(ticket));
    var rest := FromDirty(Next(s, Rearm(ticket)), request);
    ThenAnswerable(s, Rearm(ticket), rest, request);
    steps := [Rearm(ticket)] + rest;
  }

  /** From wherever a run has got to, whatever has failed so far, some steps of flushers and writers
      let a waiting request be answered. */
  lemma AlwaysAnswerable(steps: seq<Step>, states: seq<Registry>, i: nat, request: nat) returns (more: seq<Step>)
    requires IsRun(steps, states) && i < |states| && request in states[i].waiting
    ensures Possible(states[i], more) && Enabled(Reach(states[i], more), Answer(request))
  {
    var s := states[i];
    RunInv(steps, states, i);
    RunLagHeld(steps, states, i);
    if Enabled(s, Answer(request)) {
      NowAnswerable(s, request);
      more := [];
    } else if s.dirty {
      more := FromDirty(s, request);
    } else if flusher :| flusher in s.taking {
      more := FromTaking(s, flusher, request);
    } else if |s.disk| < |s.history| {
      var t :| t in s.jobs && s.jobs[t].phase != Landed && s.jobs[t].Generation() == |s.history|;
      if s.jobs[t].phase == Queued { more := FromQueued(s, t, request); } else { more := FromFailed(s, t, request); }
    } else {
      var t :| t in s.jobs && s.jobs[t].phase == Landed && s.jobs[t].Generation() == |s.disk|;
      more := FromLanded(s, t, request);
    }
  }

  lemma NextPublished(s: Registry, step: Step)
    requires Enabled(s, step)
    ensures s.persisted <= Next(s, step).persisted && IsPrefix(s.tickets, Next(s, step).tickets)
  {
    hide LastDurable;
  }

  lemma {:induction false} PublishedStays(steps: seq<Step>, states: seq<Registry>, i: nat, j: nat)
    requires IsRun(steps, states) && i <= j < |states|
    ensures states[i].persisted <= states[j].persisted && IsPrefix(states[i].tickets, states[j].tickets)
    decreases j
  {
    hide Next;
    if i < j {
      PublishedStays(steps, states, i, j - 1);
      NextPublished(states[j - 1], steps[j - 1]);
      var a, b, c := states[i].tickets, states[j - 1].tickets, states[j].tickets;
      assert c[..|a|] == b[..|a|];
    }
  }

  /** Once the snapshot of a ticket drawn after a request was handled has been published, the request
      can be answered from then on. */
  lemma PublishedIsAnswerable(steps: seq<Step>, states: seq<Registry>, i: nat, j: nat, k: nat, m: nat)
    requires IsRun(steps, states) && i < j < k < m < |states|
    requires steps[i].Handle? && steps[j].TakeTicket? && steps[k] == Publish(|states[j].tickets| + 1)
    requires forall l :: i < l < m ==> steps[l] != Answer(steps[i].request)
    ensures Enabled(states[m], Answer(steps[i].request))
  {
    hide Next;
    var request, t := steps[i].request, |states[j].tickets| + 1;
    Samples(states[i], steps[i]);
    WaitingKeeps(steps, states, i + 1, m, request);
    WaitingKeeps(steps, states, i + 1, j, request);
    RunInv(steps, states, j);
    RunInv(steps, states, k);
    DrawsAll(states[j], steps[j]);
    PublishedStays(steps, states, j + 1, k);
    PublishedStays(steps, states, k + 1, m);
    assert states[k].tickets[t - 1] == states[j + 1].tickets[t - 1] == |states[j].history|;
    PublishRaises(states[k], t);
  }

  lemma Samples(s: Registry, step: Step)
    requires Enabled(s, step) && step.Handle?
    ensures step.request in Next(s, step).waiting
  {
  }

  lemma DrawsAll(s: Registry, step: Step)
    requires Enabled(s, step) && step.TakeTicket?
    ensures |Next(s, step).tickets| == |s.tickets| + 1 && Next(s, step).tickets[|s.tickets|] == |s.history|
  {
  }

  lemma PublishRaises(s: Registry, ticket: nat)
    requires Enabled(s, Publish(ticket))
    ensures s.jobs[ticket].Generation() <= Next(s, Publish(ticket)).persisted
  {
  }
}
