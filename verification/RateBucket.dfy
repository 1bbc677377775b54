/**
 Rate windows for many keys with an index of them by age, and the admissions that charge
 an address and its network together.
 */
module RateBucketStore {
  import opened Options
  import opened RateWindows

  type Ip = nat

  type Age = (int, Ip)

  predicate Older(a: Age, b: Age) { a.0 < b.0 || (a.0 == b.0 && a.1 <= b.1) }

  function Ages(entries: map<Ip, Window>): set<Age> { set k | k in entries :: (entries[k].start, k) }

  function WindowOf(entries: map<Ip, Window>, k: Ip): Option<Window> { if k in entries then Some(entries[k]) else None }

  predicate IsOldest(ages: set<Age>, a: Age) { a in ages && forall b :: b in ages ==> Older(a, b) }

  lemma AgesWithout(entries: map<Ip, Window>, k: Ip)
    requires k in entries
    ensures Ages(entries - {k}) == Ages(entries) - {(entries[k].start, k)}
  {
    forall a ensures a in Ages(entries - {k}) <==> a in Ages(entries) - {(entries[k].start, k)} {
      if a in Ages(entries - {k}) { assert a.1 in entries && a.1 != k; }
      if a in Ages(entries) && a.1 != k { assert a.1 in entries - {k}; }
    }
  }

  lemma AgesWith(entries: map<Ip, Window>, k: Ip, w: Window)
    ensures Ages(entries[k := w]) == Ages(entries - {k}) + {(w.start, k)}
  {
    forall a ensures a in Ages(entries[k := w]) <==> a in Ages(entries - {k}) + {(w.start, k)} {
      if a in Ages(entries - {k}) { assert a.1 in entries[k := w] && a.1 != k; }
      if a.1 == k { assert a.1 in entries[k := w]; }
      if a in Ages(entries[k := w]) && a.1 != k { assert a.1 in entries - {k}; }
    }
  }

  class RateBucket {
    var entries: map<Ip, Window>
    var byAge: set<Age>

    /** The index holds exactly one age per entry. */
    ghost predicate Valid()
      reads this
    {
      byAge == Ages(entries)
    }

    constructor ()
      ensures Valid() && entries == map[]
    {
      entries, byAge := map[], {};
    }

    /** The entry whose window started first, as the age index orders them. */
    method Oldest() returns (k: Ip)
      requires Valid() && entries != map[]
      ensures k in entries && IsOldest(Ages(entries), (entries[k].start, k))
    {
      var some :| some in entries;
      assert (entries[some].start, some) in byAge;
      var least :| least in byAge;
      var todo := byAge - {least};
      while todo != {}
        invariant least in byAge && todo <= byAge
        invariant forall b :: b in byAge - todo ==> Older(least, b)
        decreases |todo|
      {
        var b :| b in todo;
        ghost var seen := byAge - todo;
        todo := todo - {b};
        assert byAge - todo == seen + {b};
        if Older(b, least) {
          assert forall c :: c in seen ==> Older(least, c) && Older(b, c);
          least := b;
        }
      }
      k := least.1;
    }

    method Drop(k: Ip)
      requires Valid() && k in entries
      modifies this
      ensures Valid() && entries == old(entries) - {k} && |entries| + 1 == |old(entries)|
    {
      hide Ages;
      AgesWithout(entries, k);
      assert (entries - {k}).Keys == entries.Keys - {k};
      byAge := byAge - {(entries[k].start, k)};
      entries := entries - {k};
    }

    method EvictFor(room: nat)
      requires Valid() && room >= 1
      modifies this
      ensures Valid() && EvictedTo(old(entries), entries, room)
    {
      hide Ages, Older;
      while |entries| >= room
        invariant Valid() && EvictedDownTo(old(entries), entries)
        invariant |old(entries)| < room ==> entries == old(entries)
        invariant |old(entries)| >= room ==> |entries| + 1 >= room
        decreases |entries|
      {
        var k := Oldest();
        EvictOne(old(entries), entries, k);
        Drop(k);
      }
    }

    /** One request from `key`: its own window is charged; other keys lose theirs only to
        make room for one not seen before, oldest first. */
    method Charge(key: Ip, limit: nat, window: nat, now: int, maxEntries: nat) returns (ok: bool)
      requires Valid()
      modifies this
      ensures Valid() && key in entries
      ensures (entries[key], ok) == Charged(WindowOf(old(entries), key), limit, window, now)
      ensures OthersKept(old(entries), entries, key, maxEntries)
    {
      hide Ages;
      if key in entries {
        var w := entries[key];
        if RunOut(w, window, now) {
          SetWindow(key, Window(now, 1));
          ok := true;
        } else {
          SetWindow(key, w.(count := w.count + 1));
          ok := w.count + 1 <= limit;
        }
      } else {
        EvictFor(if maxEntries == 0 then 1 else maxEntries);
        assert key !in entries && entries - {key} == entries;
        SetWindow(key, Window(now, 1));
        ok := limit >= 1;
      }
    }

    /** Put a key's window in place, with its age. */
    method SetWindow(k: Ip, w: Window)
      requires Valid()
      modifies this
      ensures Valid() && entries == old(entries)[k := w]
      ensures entries - {k} == old(entries) - {k}
    {
      hide Ages;
      AgesWith(entries, k, w);
      if k in entries {
        AgesWithout(entries, k);
        byAge := byAge - {(entries[k].start, k)} + {(w.start, k)};
      } else {
        assert entries - {k} == entries;
        byAge := byAge + {(w.start, k)};
      }
      entries := entries[k := w];
    }

    predicate IsExhausted(key: Ip, limit: nat, window: nat, now: int)
      reads this
    {
      key in entries && Since(now, entries[key].start) < window && entries[key].count >= limit
    }

    /** Exactly the windows older than `retain`, or just that old, go. */
    method PruneOld(now: int, retain: nat)
      requires Valid()
      modifies this
      ensures Valid()
      ensures forall k: Ip :: WindowOf(entries, k) == Kept(WindowOf(old(entries), k), retain, now)
    {
      hide Ages, Older;
      while entries != map[]
        invariant Valid() && PrunedDownTo(old(entries), entries, retain, now)
        decreases |entries|
      {
        var k := Oldest();
        OldestFirst(entries, k, retain, now);
        if !RunOut(entries[k], retain, now) { return; }
        Drop(k);
      }
    }
  }

  // ---------------------------------------------------------------- eviction and pruning

  /** Only windows older than all that are left have gone. */
  ghost predicate EvictedDownTo(was: map<Ip, Window>, entries: map<Ip, Window>) {
    && entries.Keys <= was.Keys
    && (forall k :: k in entries ==> entries[k] == was[k])
    && (forall gone, k :: gone in was && gone !in entries && k in entries ==>
          Older((was[gone].start, gone), (was[k].start, k)))
  }

  /** The oldest windows evicted until there is room for one more, and none beyond that. */
  ghost predicate EvictedTo(was: map<Ip, Window>, entries: map<Ip, Window>, room: nat) {
    && EvictedDownTo(was, entries)
    && |entries| < room
    && (|was| < room ==> entries == was)
    && (|was| >= room ==> |entries| + 1 == room)
  }

  /** The other keys' windows after a charge of `key`. */
  ghost predicate OthersKept(was: map<Ip, Window>, entries: map<Ip, Window>, key: Ip, maxEntries: nat) {
    if key in was then entries - {key} == was - {key}
    else EvictedTo(was, entries - {key}, if maxEntries == 0 then 1 else maxEntries)
  }

  lemma EvictOne(was: map<Ip, Window>, entries: map<Ip, Window>, k: Ip)
    requires EvictedDownTo(was, entries) && k in entries && IsOldest(Ages(entries), (entries[k].start, k))
    ensures EvictedDownTo(was, entries - {k})
  {
    hide Older;
    forall other | other in entries ensures Older((was[k].start, k), (was[other].start, other)) {
      assert (entries[other].start, other) in Ages(entries);
    }
  }

  ghost predicate PrunedDownTo(was: map<Ip, Window>, entries: map<Ip, Window>, retain: nat, now: int) {
    && entries.Keys <= was.Keys
    && (forall k :: k in entries ==> entries[k] == was[k])
    && (forall k :: k in was && k !in entries ==> RunOut(was[k], retain, now))
  }

  /** If the oldest is to stay, so is every other. */
  lemma OldestFirst(entries: map<Ip, Window>, k: Ip, retain: nat, now: int)
    requires k in entries && IsOldest(Ages(entries), (entries[k].start, k))
    ensures !RunOut(entries[k], retain, now) ==> forall j :: j in entries ==> !RunOut(entries[j], retain, now)
  {
    forall j | j in entries ensures entries[k].start <= entries[j].start {
      assert (entries[j].start, j) in Ages(entries);
    }
  }

  // ---------------------------------------------------------------- two tiers

  const MAX_RATE_ENTRIES: nat := 200_000

  datatype Tier = Tier(limit: nat, window: nat)

  ghost predicate ChargedOnce(was: map<Ip, Window>, entries: map<Ip, Window>, key: Ip, tier: Tier, now: int) {
    && WindowOf(entries, key) == Some(Charged(WindowOf(was, key), tier.limit, tier.window, now).0)
    && OthersKept(was, entries, key, MAX_RATE_ENTRIES)
  }

  /** One request charged to an address and to its network: admitted by both and charged once
      in each, or refused and charged in neither. */
  method AdmitBoth(perAddress: RateBucket, perNetwork: RateBucket, address: Ip, network: Ip, one: Tier, all: Tier,
                   now: int)
    returns (ok: bool)
    requires perAddress != perNetwork && perAddress.Valid() && perNetwork.Valid() && one.limit >= 1 && all.limit >= 1
    modifies perAddress, perNetwork
    ensures perAddress.Valid() && perNetwork.Valid()
    ensures ok <==> && Charged(WindowOf(old(perAddress.entries), address), one.limit, one.window, now).1
                    && Charged(WindowOf(old(perNetwork.entries), network), all.limit, all.window, now).1
    ensures !ok ==> perAddress.entries == old(perAddress.entries) && perNetwork.entries == old(perNetwork.entries)
    ensures ok ==> ChargedOnce(old(perAddress.entries), perAddress.entries, address, one, now)
    ensures ok ==> ChargedOnce(old(perNetwork.entries), perNetwork.entries, network, all, now)
  {
    ExhaustedForetells(WindowOf(perAddress.entries, address), one.limit, one.window, now);
    ExhaustedForetells(WindowOf(perNetwork.entries, network), all.limit, all.window, now);
    if perAddress.IsExhausted(address, one.limit, one.window, now)
       || perNetwork.IsExhausted(network, all.limit, all.window, now) {
      return false;
    }
    var addressOk := perAddress.Charge(address, one.limit, one.window, now, MAX_RATE_ENTRIES);
    var networkOk := perNetwork.Charge(network, all.limit, all.window, now, MAX_RATE_ENTRIES);
    ok := addressOk && networkOk;
  }
}
