/**
 A rate limit for one key: a window that starts with the first request after the last
 one ran out, and a count of requests in it. `RateBucket` keeps these for many keys.
 */
module RateWindows {
  import opened Options

  datatype Window = Window(start: int, count: nat)

  /** How long since `start`, never negative. */
  function Since(now: int, start: int): nat { if now >= start then now - start else 0 }

  predicate RunOut(w: Window, window: nat, now: int) { Since(now, w.start) >= window }

  /** One request: the key's window after it, and whether it is admitted. */
  function Charged(w: Option<Window>, limit: nat, window: nat, now: int): (Window, bool) {
    match w
    case None => (Window(now, 1), limit >= 1)
    case Some(w) =>
      if RunOut(w, window, now) then (Window(now, 1), true)
      else (w.(count := w.count + 1), w.count + 1 <= limit)
  }

  predicate Exhausted(w: Option<Window>, limit: nat, window: nat, now: int) {
    w.Some? && !RunOut(w.value, window, now) && w.value.count >= limit
  }

  function Kept(w: Option<Window>, retain: nat, now: int): Option<Window> {
    if w.Some? && RunOut(w.value, retain, now) then None else w
  }

  /** What `exhausted` says of a key beforehand is what charging it would answer. */
  lemma ExhaustedForetells(w: Option<Window>, limit: nat, window: nat, now: int)
    requires limit >= 1
    ensures Charged(w, limit, window, now).1 <==> !Exhausted(w, limit, window, now)
  {
  }

  // ---------------------------------------------------------------- runs of one key

  datatype Op = Charge(now: int) | Prune(now: int)

  datatype Key = Key(window: Option<Window>, admitted: seq<int>)

  const UNSEEN := Key(None, [])

  function Step(k: Key, op: Op, limit: nat, window: nat, retain: nat): Key {
    match op
    case Charge(now) =>
      var (w, ok) := Charged(k.window, limit, window, now);
      Key(Some(w), if ok then k.admitted + [now] else k.admitted)
    case Prune(now) => k.(window := Kept(k.window, retain, now))
  }

  function After(ops: seq<Op>, limit: nat, window: nat, retain: nat): Key {
    if ops == [] then UNSEEN
    else Step(After(ops[..|ops| - 1], limit, window, retain), ops[|ops| - 1], limit, window, retain)
  }

  ghost predicate Steady(ops: seq<Op>) { forall i, j :: 0 <= i < j < |ops| ==> ops[i].now <= ops[j].now }

  function Budget(limit: nat): nat { if limit == 0 then 1 else limit }

  /** The admissions split at the start of the present window and of the one before it, with
      none older than that reaching within a window of the present start. */
  ghost predicate Split(admitted: seq<int>, start: int, limit: nat, window: nat, p: nat, b: nat) {
    && p <= b <= |admitted|
    && b - p <= Budget(limit) && |admitted| - b <= Budget(limit)
    && (forall i :: 0 <= i < p ==> admitted[i] + window <= start)
    && (forall i :: 0 <= i < b ==> admitted[i] <= start)
    && (forall i :: b <= i < |admitted| ==> start <= admitted[i])
  }

  /** Any run of more than twice the limit takes at least a window. */
  ghost predicate Spaced(admitted: seq<int>, limit: nat, window: nat) {
    forall i :: 0 <= i && i + 2 * Budget(limit) < |admitted| ==> admitted[i] + window <= admitted[i + 2 * Budget(limit)]
  }

  /** Present window and admissions agree; a key pruned away has a window that ran out. */
  ghost predicate Agrees(k: Key, limit: nat, window: nat, now: int, start: int, p: nat, b: nat) {
    && Split(k.admitted, start, limit, window, p, b)
    && Spaced(k.admitted, limit, window)
    && (forall i :: 0 <= i < |k.admitted| ==> k.admitted[i] <= now)
    && (if k.window.Some? then
          && k.window.value.start == start <= now && k.window.value.count >= 1
          && |k.admitted| - b <= k.window.value.count
        else k.admitted != [] ==> start + window <= now)
  }

  /** A new window: the present one becomes the one before. */
  lemma StartsAfresh(k: Key, limit: nat, window: nat, now: int, start: int, p: nat, b: nat, ok: bool)
    requires Agrees(k, limit, window, now, start, p, b) && (k.admitted != [] ==> start + window <= now)
    ensures Agrees(Key(Some(Window(now, 1)), if ok then k.admitted + [now] else k.admitted), limit, window, now, now,
                   b, |k.admitted|)
  {
  }

  lemma StillInWindow(k: Key, limit: nat, window: nat, was: int, now: int, start: int, p: nat, b: nat)
    requires Agrees(k, limit, window, was, start, p, b) && was <= now
    requires k.window.Some? && !RunOut(k.window.value, window, now)
    ensures Agrees(Step(k, Charge(now), limit, window, window), limit, window, now, start, p, b)
  {
    var w := k.window.value;
    if w.count + 1 <= limit {
      var m := |k.admitted|;
      assert m - 2 * Budget(limit) < p;
    }
  }

  lemma StepAgrees(k: Key, op: Op, limit: nat, window: nat, retain: nat, was: int, start: int, p: nat, b: nat)
    returns (start': int, p': nat, b': nat)
    requires Agrees(k, limit, window, was, start, p, b) && was <= op.now && retain >= window
    ensures Agrees(Step(k, op, limit, window, retain), limit, window, op.now, start', p', b')
  {
    start', p', b' := start, p, b;
    match op
    case Charge(now) =>
      if k.window.Some? && !RunOut(k.window.value, window, now) {
        StillInWindow(k, limit, window, was, now, start, p, b);
      } else {
        StartsAfresh(k, limit, window, now, start, p, b, Charged(k.window, limit, window, now).1);
        start', p', b' := now, b, |k.admitted|;
      }
    case Prune(now) =>
  }

  lemma {:induction false} RunAgrees(ops: seq<Op>, limit: nat, window: nat, retain: nat) returns (start: int, p: nat,
                                     b: nat)
    requires Steady(ops) && retain >= window
    ensures ops != [] ==> Agrees(After(ops, limit, window, retain), limit, window, ops[|ops| - 1].now, start, p, b)
  {
    if ops == [] {
      start, p, b := 0, 0, 0;
    } else {
      hide Agrees, Step;
      var init, op := ops[..|ops| - 1], ops[|ops| - 1];
      var k := After(init, limit, window, retain);
      if init == [] {
        UnseenAgrees(limit, window, op.now);
        start, p, b := StepAgrees(k, op, limit, window, retain, op.now, op.now, 0, 0);
      } else {
        start, p, b := RunAgrees(init, limit, window, retain);
        start, p, b := StepAgrees(k, op, limit, window, retain, init[|init| - 1].now, start, p, b);
      }
    }
  }

  lemma UnseenAgrees(limit: nat, window: nat, now: int)
    ensures Agrees(UNSEEN, limit, window, now, now, 0, 0)
  {
  }

  /** With a clock that does not go back, a key that is never evicted takes at least a window
      to have more than twice its limit admitted. */
  lemma AtMostTwiceTheLimit(ops: seq<Op>, limit: nat, window: nat, retain: nat, i: nat, j: nat)
    requires Steady(ops) && retain >= window
    requires i + 2 * Budget(limit) < j <= |After(ops, limit, window, retain).admitted|
    ensures var a := After(ops, limit, window, retain).admitted; a[i] + window <= a[j - 1]
  {
    hide After, Split;
    var start, p, b := RunAgrees(ops, limit, window, retain);
    var a := After(ops, limit, window, retain).admitted;
    NothingYet(limit, window, retain);
    Sorted(ops, limit, window, retain);
    assert a[i] + window <= a[i + 2 * Budget(limit)] <= a[j - 1];
  }

  lemma NothingYet(limit: nat, window: nat, retain: nat)
    ensures After([], limit, window, retain) == UNSEEN
  {
  }

  ghost predicate Rises(a: seq<int>) { forall i, j :: 0 <= i <= j < |a| ==> a[i] <= a[j] }

  lemma {:induction false} Sorted(ops: seq<Op>, limit: nat, window: nat, retain: nat)
    requires Steady(ops)
    ensures Rises(After(ops, limit, window, retain).admitted)
    ensures ops != [] ==> forall t :: t in After(ops, limit, window, retain).admitted ==> t <= ops[|ops| - 1].now
  {
    if ops != [] {
      var init := ops[..|ops| - 1];
      Sorted(init, limit, window, retain);
      var a, a' := After(init, limit, window, retain).admitted, After(ops, limit, window, retain).admitted;
      assert forall i :: 0 <= i < |a| ==> a[i] in a;
      assert forall i :: 0 <= i < |a| ==> a'[i] == a[i] <= ops[|ops| - 1].now;
    }
  }

  // ---------------------------------------------------------------- pruning

  predicate IsCharge(op: Op) { op.Charge? }

  /** The same run without its prunes. */
  function Unpruned(ops: seq<Op>): seq<Op> {
    if ops == [] then [] else Unpruned(ops[..|ops| - 1]) + (if IsCharge(ops[|ops| - 1]) then [ops[|ops| - 1]] else [])
  }

  /** The same, or a window that has run out and one already forgotten. */
  predicate Alike(pruned: Key, kept: Key, window: nat, now: int) {
    && pruned.admitted == kept.admitted
    && (pruned.window == kept.window
        || (pruned.window.None? && kept.window.Some? && kept.window.value.start + window <= now))
  }

  lemma {:induction false} PrunedAlike(ops: seq<Op>, limit: nat, window: nat, retain: nat)
    requires Steady(ops) && retain >= window && limit >= 1
    ensures ops != [] ==> Alike(After(ops, limit, window, retain), After(Unpruned(ops), limit, window, retain),
                                window, ops[|ops| - 1].now)
    ensures ops == [] ==> Unpruned(ops) == []
  {
    if ops != [] {
      var init, op := ops[..|ops| - 1], ops[|ops| - 1];
      PrunedAlike(init, limit, window, retain);
      var rest := Unpruned(init);
      if IsCharge(op) {
        assert (rest + [op])[..|rest|] == rest;
      } else {
        assert rest + [] == rest;
      }
    }
  }

  /** Pruning changes no answer: the same requests are admitted with and without it. */
  lemma PruningIsUnseen(ops: seq<Op>, limit: nat, window: nat, retain: nat)
    requires Steady(ops) && retain >= window && limit >= 1
    ensures After(ops, limit, window, retain).admitted == After(Unpruned(ops), limit, window, retain).admitted
  {
    PrunedAlike(ops, limit, window, retain);
  }

  /** With a limit of zero it would show: a key seen before is admitted once its window has run
      out, a key forgotten is not. */
  lemma ZeroLimitShowsPruning(window: nat)
    ensures var ops := [Charge(0), Prune(window), Charge(window)];
            After(ops, 0, window, window).admitted != After(Unpruned(ops), 0, window, window).admitted
  {
    var ops := [Charge(0), Prune(window), Charge(window)];
    assert ops[..2] == [ops[0], ops[1]] && ops[..2][..1] == [ops[0]] && ops[..1][..0] == [];
    assert ops[..1] == [ops[0]];
    var kept := [Charge(0), Charge(window)];
    assert Unpruned([]) == [];
    assert Unpruned([ops[0]]) == [ops[0]];
    assert Unpruned(ops[..2]) == [ops[0]];
    assert Unpruned(ops) == kept;
    assert kept[..1] == [kept[0]] && kept[..1][..0] == [];
    assert After([], 0, window, window) == UNSEEN;
    assert After([Charge(0)], 0, window, window) == Key(Some(Window(0, 1)), []);
    assert After(ops[..2], 0, window, window) == Key(None, []);
  }

  /** A prune forgets exactly the windows that started at least `retain` ago. */
  lemma ForgottenIff(w: Window, retain: nat, now: int)
    requires w.start <= now
    ensures Kept(Some(w), retain, now) == if now - w.start >= retain then None else Some(w)
  {
  }

  // ---------------------------------------------------------------- who is admitted

  /** How many requests came after `since`. */
  function Charges(ops: seq<Op>, since: int): nat {
    if ops == [] then 0
    else
      var last := ops[|ops| - 1];
      Charges(ops[..|ops| - 1], since) + (if IsCharge(last) && last.now > since then 1 else 0)
  }

  lemma {:induction false} EarlierHasMore(ops: seq<Op>, since: int, earlier: int)
    requires earlier <= since
    ensures Charges(ops, since) <= Charges(ops, earlier)
  {
    if ops != [] { EarlierHasMore(ops[..|ops| - 1], since, earlier); }
  }

  /** A window counts no more than the requests since it started. */
  lemma {:induction false} CountsItsOwn(ops: seq<Op>, limit: nat, window: nat, retain: nat)
    requires Steady(ops)
    ensures var w := After(ops, limit, window, retain).window;
            w.Some? ==>
              ops != [] && w.value.start <= ops[|ops| - 1].now && w.value.count <= Charges(ops, w.value.start - 1)
  {
    if ops != [] {
      hide Charges;
      var init, op := ops[..|ops| - 1], ops[|ops| - 1];
      CountsItsOwn(init, limit, window, retain);
      assert init != [] ==> init[|init| - 1].now <= op.now;
      forall since
        ensures Charges(ops, since) == Charges(init, since) + (if IsCharge(op) && op.now > since then 1 else 0)
      {
        ChargesLast(ops, since);
      }
    }
  }

  lemma ChargesLast(ops: seq<Op>, since: int)
    requires ops != []
    ensures var last := ops[|ops| - 1];
            Charges(ops, since) ==
            Charges(ops[..|ops| - 1], since) + (if IsCharge(last) && last.now > since then 1 else 0)
  {
  }

  /** With a clock that does not go back, a request is admitted whenever fewer than the limit came
      within the length of a window before it: so the first `limit` of a window always are. */
  lemma FewRecentIsAdmitted(ops: seq<Op>, limit: nat, window: nat, retain: nat, j: nat)
    requires Steady(ops) && j < |ops| && ops[j].Charge?
    requires Charges(ops[..j], ops[j].now - window) < limit
    ensures After(ops[..j + 1], limit, window, retain).admitted ==
            After(ops[..j], limit, window, retain).admitted + [ops[j].now]
  {
    assert ops[..j + 1][..j] == ops[..j];
    CountsItsOwn(ops[..j], limit, window, retain);
    var w := After(ops[..j], limit, window, retain).window;
    if w.Some? && !RunOut(w.value, window, ops[j].now) {
      EarlierHasMore(ops[..j], w.value.start - 1, ops[j].now - window);
    }
  }
}
