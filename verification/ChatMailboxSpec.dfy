/**
 The chat mailbox as one sequence of live deposits, oldest first. Boxes, byte
 counters and per-network queues are all read off that sequence; `ChatMailbox`
 keeps them incrementally and is proved to agree with it.
 */
module ChatMailboxSpec {
  import opened Seqs
  import opened Text

  const LARGEST_BLOB: nat := 4608
  const ITEM_TTL: int := 7 * 24 * 60 * 60
  const MAX_ITEMS_PER_BOX: nat := 64
  const MAX_BYTES_PER_BOX: nat := 256 * 1024
  const MAX_TOTAL_BYTES: nat := 64 * 1024 * 1024
  const MAX_BYTES_PER_NETWORK: nat := 4 * 1024 * 1024

  predicate IsBlobSize(n: nat) { n == 512 || n == 1024 || n == 2048 || n == LARGEST_BLOB }

  type BoxId = nat
  type ItemId = nat
  type Network = nat

  datatype Item = Item(id: ItemId, blob: seq<Byte>, expiresAt: int, network: Network)

  datatype Deposit = Deposit(box: BoxId, item: Item)

  datatype PutAnswer = Stored | BadSize | BoxFull | StoreFull | NetworkFull

  // ---------------------------------------------------------------- reading the sequence

  function Bytes(live: seq<Deposit>): nat {
    if live == [] then 0 else Bytes(live[..|live| - 1]) + |live[|live| - 1].item.blob|
  }

  function FromNetwork(n: Network): Deposit -> bool { (d: Deposit) => d.item.network == n }

  function InBox(b: BoxId): Deposit -> bool { (d: Deposit) => d.box == b }

  function NotId(id: ItemId): Deposit -> bool { (d: Deposit) => d.item.id != id }

  function NetBytes(live: seq<Deposit>, n: Network): nat { Bytes(Filter(FromNetwork(n), live)) }

  function BoxBytes(live: seq<Deposit>, b: BoxId): nat { Bytes(Filter(InBox(b), live)) }

  function Without(live: seq<Deposit>, id: ItemId): seq<Deposit> { Filter(NotId(id), live) }

  ghost predicate UniqueIds(live: seq<Deposit>) {
    forall i, j :: 0 <= i < j < |live| ==> live[i].item.id != live[j].item.id
  }

  /** Every cap, over exactly the live deposits. */
  ghost predicate CapsHold(live: seq<Deposit>) {
    && (forall d :: d in live ==> IsBlobSize(|d.item.blob|))
    && (forall n: Network :: NetBytes(live, n) <= MAX_BYTES_PER_NETWORK)
    && (forall b: BoxId :: |Filter(InBox(b), live)| <= MAX_ITEMS_PER_BOX && BoxBytes(live, b) <= MAX_BYTES_PER_BOX)
    && Bytes(live) <= MAX_TOTAL_BYTES
  }

  // ---------------------------------------------------------------- making room

  /** Drop the network's oldest deposits, one at a time, until `needed` bytes fit. */
  function EvictUntil(live: seq<Deposit>, victim: Network, needed: nat): (r: seq<Deposit>)
    decreases |live|
  {
    var mine := Filter(FromNetwork(victim), live);
    if Bytes(live) + needed <= MAX_TOTAL_BYTES || mine == [] then live
    else
      assert mine[0] in live;
      FilterDrops(NotId(mine[0].item.id), live, mine[0]);
      EvictUntil(Without(live, mine[0].item.id), victim, needed)
  }

  ghost predicate IsLargest(live: seq<Deposit>, victim: Network) {
    && NetBytes(live, victim) > 0
    && forall n: Network :: NetBytes(live, n) <= NetBytes(live, victim)
  }

  function Over(live: seq<Deposit>, needed: nat): nat {
    if Bytes(live) + needed > MAX_TOTAL_BYTES then Bytes(live) + needed - MAX_TOTAL_BYTES else 0
  }

  /** Whether `victim`, the network holding the most, would keep more than the depositor. */
  predicate MayEvict(live: seq<Deposit>, victim: Network, depositor: Network, needed: nat) {
    NetBytes(live, victim) > NetBytes(live, depositor) + needed + Over(live, needed) + LARGEST_BLOB
  }

  /** The answer to a deposit and what is live after it. `victim` is whichever
      network holds the most, if room has to be made. */
  ghost predicate PutStep(live: seq<Deposit>, d: Deposit, victim: Network, live': seq<Deposit>, answer: PutAnswer) {
    var size := |d.item.blob|;
    if !IsBlobSize(size) then answer == BadSize && live' == live
    else if NetBytes(live, d.item.network) + size > MAX_BYTES_PER_NETWORK then answer == NetworkFull && live' == live
    else if |Filter(InBox(d.box), live)| >= MAX_ITEMS_PER_BOX || BoxBytes(live, d.box) + size > MAX_BYTES_PER_BOX then
      answer == BoxFull && live' == live
    else if Over(live, size) == 0 then answer == Stored && live' == live + [d]
    else
      && IsLargest(live, victim)
      && if !MayEvict(live, victim, d.item.network, size) then answer == StoreFull && live' == live
         else answer == Stored && live' == EvictUntil(live, victim, size) + [d]
  }

  // ---------------------------------------------------------------- bytes

  lemma {:induction false} BytesAppend(s: seq<Deposit>, t: seq<Deposit>)
    ensures Bytes(s + t) == Bytes(s) + Bytes(t)
  {
    if t == [] {
      assert s + t == s;
    } else {
      BytesAppend(s, t[..|t| - 1]);
      assert (s + t)[..|s + t| - 1] == s + t[..|t| - 1];
    }
  }

  /** Dropping the deposit with an id takes exactly its bytes, once. */
  lemma {:induction false} BytesWithout(s: seq<Deposit>, d: Deposit)
    requires d in s && UniqueIds(s)
    ensures Bytes(Without(s, d.item.id)) + |d.item.blob| == Bytes(s)
    ensures |Without(s, d.item.id)| + 1 == |s|
  {
    var init, last := s[..|s| - 1], s[|s| - 1];
    if d == last {
      assert forall x :: x in init ==> NotId(d.item.id)(x);
      FilterKeeps(NotId(d.item.id), init);
    } else {
      assert d in init;
      assert last.item.id != d.item.id;
      BytesWithout(init, d);
      BytesAppend(Without(init, d.item.id), [last]);
    }
  }

  lemma {:induction false} BytesWithoutNone(s: seq<Deposit>, id: ItemId)
    requires forall d :: d in s ==> d.item.id != id
    ensures Without(s, id) == s
  {
    FilterKeeps(NotId(id), s);
  }

  lemma {:induction false} UniqueFilter(p: Deposit -> bool, s: seq<Deposit>)
    requires UniqueIds(s)
    ensures UniqueIds(Filter(p, s))
  {
    if s != [] {
      var init, last := s[..|s| - 1], s[|s| - 1];
      UniqueFilter(p, init);
      forall x | x in Filter(p, init)
        ensures x.item.id != last.item.id
      {
        var i :| 0 <= i < |init| && init[i] == x;
      }
    }
  }

  /** What one deposit's going does to each network and box. */
  lemma PartWithout(p: Deposit -> bool, s: seq<Deposit>, d: Deposit)
    requires d in s && UniqueIds(s)
    ensures Filter(p, Without(s, d.item.id)) == Without(Filter(p, s), d.item.id)
    ensures p(d) ==> Bytes(Filter(p, Without(s, d.item.id))) + |d.item.blob| == Bytes(Filter(p, s))
    ensures !p(d) ==> Filter(p, Without(s, d.item.id)) == Filter(p, s)
  {
    FilterCommutes(p, NotId(d.item.id), s);
    UniqueFilter(p, s);
    if p(d) {
      BytesWithout(Filter(p, s), d);
    } else {
      SameId(s, d);
      BytesWithoutNone(Filter(p, s), d.item.id);
    }
  }

  lemma SameId(s: seq<Deposit>, d: Deposit)
    requires d in s && UniqueIds(s)
    ensures forall x :: x in s && x.item.id == d.item.id ==> x == d
  {
    forall x | x in s && x.item.id == d.item.id
      ensures x == d
    {
      var i, j :| 0 <= i < |s| && 0 <= j < |s| && s[i] == x && s[j] == d;
    }
  }

  lemma {:induction false} BytesOfPart(p: Deposit -> bool, s: seq<Deposit>)
    ensures Bytes(Filter(p, s)) <= Bytes(s)
  {
    if s != [] {
      BytesOfPart(p, s[..|s| - 1]);
      BytesAppend(Filter(p, s[..|s| - 1]), [s[|s| - 1]]);
    }
  }

  // ---------------------------------------------------------------- what an eviction takes

  function NotAmong(gone: seq<Deposit>): Deposit -> bool { (d: Deposit) => d !in gone }

  lemma FirstGone(live: seq<Deposit>, victim: Network)
    requires UniqueIds(live) && Filter(FromNetwork(victim), live) != []
    ensures var mine := Filter(FromNetwork(victim), live);
            var rest := Without(live, mine[0].item.id);
            && Filter(FromNetwork(victim), rest) == mine[1..]
            && UniqueIds(rest) && |rest| < |live|
            && Bytes(rest) + |mine[0].item.blob| == Bytes(live)
            && rest == Filter(NotAmong(mine[..1]), live)
  {
    var mine := Filter(FromNetwork(victim), live);
    var d := mine[0];
    assert d in live;
    PartWithout(FromNetwork(victim), live, d);
    UniqueFilter(FromNetwork(victim), live);
    UniqueFilter(NotId(d.item.id), live);
    BytesWithout(live, d);
    HeadWithout(mine);
    SameId(live, d);
    FilterSame(NotId(d.item.id), NotAmong(mine[..1]), live);
  }

  lemma HeadWithout(s: seq<Deposit>)
    requires s != [] && UniqueIds(s)
    ensures Without(s, s[0].item.id) == s[1..]
  {
    hide Filter;
    FilterTail(NotId(s[0].item.id), s, 1);
  }

  /** `k` is the least number of the victim's oldest deposits that makes room. */
  ghost predicate Shortest(mine: seq<Deposit>, over: nat, k: nat) {
    && k <= |mine|
    && Bytes(mine[..k]) >= over
    && (k > 0 ==> Bytes(mine[..k - 1]) < over)
  }

  /** Exactly the shortest oldest-first prefix of the victim's deposits that makes room goes. */
  lemma {:induction false} EvictsShortestPrefix(live: seq<Deposit>, victim: Network, needed: nat) returns (k: nat)
    requires UniqueIds(live)
    requires NetBytes(live, victim) >= Over(live, needed)
    ensures var mine := Filter(FromNetwork(victim), live);
            && Shortest(mine, Over(live, needed), k)
            && EvictUntil(live, victim, needed) == Filter(NotAmong(mine[..k]), live)
    decreases |live|
  {
    hide Filter;
    var mine := Filter(FromNetwork(victim), live);
    if Over(live, needed) == 0 {
      k := 0;
      FilterKeeps(NotAmong([]), live);
      assert mine[..0] == [];
    } else {
      FirstGone(live, victim);
      var rest := Without(live, mine[0].item.id);
      PrefixCons(mine, |mine| - 1);
      assert mine[..|mine|] == mine && mine[1..][..|mine| - 1] == mine[1..];
      var k' := EvictsShortestPrefix(rest, victim, needed);
      k := k' + 1;
      PrefixCons(mine, k');
      if k' > 0 { PrefixCons(mine, k' - 1); }
      assert mine[..0] == [];
      FilterTwice(NotAmong(mine[1..][..k']), NotAmong(mine[..1]), NotAmong(mine[..k]), live);
    }
  }

  lemma PrefixCons(mine: seq<Deposit>, k: nat)
    requires mine != [] && k < |mine|
    ensures mine[..k + 1] == [mine[0]] + mine[1..][..k]
    ensures Bytes(mine[..k + 1]) == |mine[0].item.blob| + Bytes(mine[1..][..k])
    ensures forall d :: d in mine[..k + 1] <==> d in mine[..1] || d in mine[1..][..k]
  {
    assert mine[..k + 1] == [mine[0]] + mine[1..][..k];
    BytesAppend([mine[0]], mine[1..][..k]);
    assert [mine[0]][..0] == [];
    assert mine[..1] == [mine[0]];
  }

  /** An eviction that makes room stops within one deposit of doing so. */
  lemma ShortestOvershoot(mine: seq<Deposit>, over: nat, k: nat)
    requires Shortest(mine, over, k) && forall d :: d in mine ==> |d.item.blob| <= LARGEST_BLOB
    ensures over <= Bytes(mine[..k]) <= over + LARGEST_BLOB
  {
    if k > 0 {
      BytesAppend(mine[..k - 1], [mine[k - 1]]);
      assert mine[..k] == mine[..k - 1] + [mine[k - 1]];
      assert [mine[k - 1]][..0] == [];
      assert mine[k - 1] in mine;
    }
  }

  lemma OthersKeep(live: seq<Deposit>, victim: Network, k: nat, n: Network)
    requires k <= |Filter(FromNetwork(victim), live)| && n != victim
    ensures Filter(FromNetwork(n), Filter(NotAmong(Filter(FromNetwork(victim), live)[..k]), live)) ==
            Filter(FromNetwork(n), live)
  {
    var gone := Filter(FromNetwork(victim), live)[..k];
    FilterCommutes(FromNetwork(n), NotAmong(gone), live);
    assert forall d :: d in gone ==> d in Filter(FromNetwork(victim), live);
    FilterKeeps(NotAmong(gone), Filter(FromNetwork(n), live));
  }

  /** Making room takes from the victim alone, and leaves it holding strictly more
      than the depositor will. */
  lemma VictimKeepsMore(live: seq<Deposit>, victim: Network, depositor: Network, needed: nat)
    requires UniqueIds(live) && (forall d :: d in live ==> IsBlobSize(|d.item.blob|))
    requires MayEvict(live, victim, depositor, needed)
    ensures var live' := EvictUntil(live, victim, needed);
            && Bytes(live') + needed <= MAX_TOTAL_BYTES
            && NetBytes(live', victim) > NetBytes(live', depositor) + needed
            && forall n: Network :: n != victim ==> NetBytes(live', n) == NetBytes(live, n)
  {
    hide Filter, Bytes, EvictUntil, NotAmong, FromNetwork;
    var mine := Filter(FromNetwork(victim), live);
    var k := EvictsShortestPrefix(live, victim, needed);
    forall n: Network | n != victim
      ensures NetBytes(EvictUntil(live, victim, needed), n) == NetBytes(live, n)
    {
      OthersKeep(live, victim, k, n);
    }
    VictimRest(live, victim, k);
    ShortestOvershoot(mine, Over(live, needed), k);
    BytesAppend(mine[..k], mine[k..]);
    assert mine == mine[..k] + mine[k..];
    assert depositor != victim;
  }

  /** What is left of the victim, and of the whole, after its first `k` go. */
  lemma VictimRest(live: seq<Deposit>, victim: Network, k: nat)
    requires UniqueIds(live) && k <= |Filter(FromNetwork(victim), live)|
    ensures var mine := Filter(FromNetwork(victim), live);
            var live' := Filter(NotAmong(mine[..k]), live);
            && Filter(FromNetwork(victim), live') == mine[k..]
            && Bytes(live') + Bytes(mine[..k]) == Bytes(live)
  {
    hide Filter, Bytes;
    var mine := Filter(FromNetwork(victim), live);
    var p := NotAmong(mine[..k]);
    FilterCommutes(FromNetwork(victim), p, live);
    FirstAmong(live, victim, k);
    FilterTail(p, mine, k);
    BytesSplit(p, live);
    NotAmongComplement(live, victim, k);
  }

  /** Of the victim's deposits, in order, exactly the first `k` are among its first `k`. */
  lemma FirstAmong(live: seq<Deposit>, victim: Network, k: nat)
    requires UniqueIds(live) && k <= |Filter(FromNetwork(victim), live)|
    ensures var mine := Filter(FromNetwork(victim), live);
            && (forall i :: 0 <= i < k ==> !NotAmong(mine[..k])(mine[i]))
            && (forall i :: k <= i < |mine| ==> NotAmong(mine[..k])(mine[i]))
  {
    hide Filter;
    var mine := Filter(FromNetwork(victim), live);
    UniqueFilter(FromNetwork(victim), live);
    forall i | 0 <= i < k ensures mine[i] in mine[..k] {
      assert mine[i] == mine[..k][i];
    }
    forall i | k <= i < |mine| ensures mine[i] !in mine[..k] {
      assert forall j :: 0 <= j < k ==> mine[..k][j].item.id != mine[i].item.id;
    }
  }

  function Not(p: Deposit -> bool): Deposit -> bool { (d: Deposit) => !p(d) }

  lemma {:induction false} BytesSplit(p: Deposit -> bool, s: seq<Deposit>)
    ensures Bytes(Filter(p, s)) + Bytes(Filter(Not(p), s)) == Bytes(s)
  {
    if s != [] {
      var init, last := s[..|s| - 1], s[|s| - 1];
      BytesSplit(p, init);
      BytesAppend(Filter(p, init), [last]);
      BytesAppend(Filter(Not(p), init), [last]);
      assert [last][..0] == [];
    }
  }

  /** The deposits not kept are the victim's first `k`, in order. */
  lemma NotAmongComplement(live: seq<Deposit>, victim: Network, k: nat)
    requires UniqueIds(live) && k <= |Filter(FromNetwork(victim), live)|
    ensures var mine := Filter(FromNetwork(victim), live);
            Filter(Not(NotAmong(mine[..k])), live) == mine[..k]
  {
    hide Filter;
    var mine := Filter(FromNetwork(victim), live);
    var gone := Not(NotAmong(mine[..k]));
    assert forall d :: d in mine[..k] ==> d in mine;
    FilterTwice(gone, FromNetwork(victim), gone, live);
    FirstAmong(live, victim, k);
    FilterHead(gone, mine, k);
  }

  // ---------------------------------------------------------------- every step keeps the caps

  lemma CapsOfPart(p: Deposit -> bool, live: seq<Deposit>)
    requires CapsHold(live)
    ensures CapsHold(Filter(p, live))
  {
    hide Bytes;
    BytesOfPart(p, live);
    forall n: Network
      ensures NetBytes(Filter(p, live), n) <= MAX_BYTES_PER_NETWORK
    {
      FilterCommutes(FromNetwork(n), p, live);
      BytesOfPart(p, Filter(FromNetwork(n), live));
      assert NetBytes(live, n) <= MAX_BYTES_PER_NETWORK;
    }
    forall b: BoxId
      ensures |Filter(InBox(b), Filter(p, live))| <= MAX_ITEMS_PER_BOX &&
              BoxBytes(Filter(p, live), b) <= MAX_BYTES_PER_BOX
    {
      FilterCommutes(InBox(b), p, live);
      BytesOfPart(p, Filter(InBox(b), live));
      assert BoxBytes(live, b) <= MAX_BYTES_PER_BOX;
    }
  }

  lemma PartSnoc(p: Deposit -> bool, live: seq<Deposit>, d: Deposit)
    ensures Filter(p, live + [d]) == if p(d) then Filter(p, live) + [d] else Filter(p, live)
    ensures Bytes(Filter(p, live + [d])) == Bytes(Filter(p, live)) + (if p(d) then |d.item.blob| else 0)
    ensures Bytes(live + [d]) == Bytes(live) + |d.item.blob|
  {
    FilterSnoc(p, live, d);
    BytesAppend(Filter(p, live), [d]);
    BytesAppend(live, [d]);
    assert [d][..0] == [];
  }

  lemma CapsSnoc(live: seq<Deposit>, d: Deposit)
    requires CapsHold(live) && IsBlobSize(|d.item.blob|)
    requires NetBytes(live, d.item.network) + |d.item.blob| <= MAX_BYTES_PER_NETWORK
    requires |Filter(InBox(d.box), live)| < MAX_ITEMS_PER_BOX &&
             BoxBytes(live, d.box) + |d.item.blob| <= MAX_BYTES_PER_BOX
    requires Bytes(live) + |d.item.blob| <= MAX_TOTAL_BYTES
    ensures CapsHold(live + [d])
  {
    hide Bytes, Filter;
    PartSnoc(InBox(d.box), live, d);
    forall n: Network
      ensures NetBytes(live + [d], n) <= MAX_BYTES_PER_NETWORK
    {
      PartSnoc(FromNetwork(n), live, d);
      assert NetBytes(live, n) <= MAX_BYTES_PER_NETWORK;
    }
    forall b: BoxId
      ensures |Filter(InBox(b), live + [d])| <= MAX_ITEMS_PER_BOX && BoxBytes(live + [d], b) <= MAX_BYTES_PER_BOX
    {
      PartSnoc(InBox(b), live, d);
      assert BoxBytes(live, b) <= MAX_BYTES_PER_BOX;
    }
  }

  /** After any deposit every cap holds, a refusal changes nothing, and where room was made
      the victim still holds strictly more than the depositor. */
  lemma PutKeepsCaps(live: seq<Deposit>, d: Deposit, victim: Network, live': seq<Deposit>, answer: PutAnswer)
    requires UniqueIds(live) && CapsHold(live)
    requires forall x :: x in live ==> x.item.id != d.item.id
    requires PutStep(live, d, victim, live', answer)
    ensures UniqueIds(live') && CapsHold(live')
    ensures answer != Stored ==> live' == live
    ensures answer == Stored ==> d in live' && live'[|live'| - 1] == d
    ensures answer == Stored && Over(live, |d.item.blob|) > 0 ==>
              NetBytes(live', victim) > NetBytes(live', d.item.network)
  {
    hide Bytes, Filter, CapsHold, EvictUntil;
    var size := |d.item.blob|;
    if answer == Stored {
      if Over(live, size) == 0 {
        StoredCaps(live, d);
      } else {
        BlobsOk(live);
        var k := EvictsShortestPrefix(live, victim, size);
        var p := NotAmong(Filter(FromNetwork(victim), live)[..k]);
        VictimKeepsMore(live, victim, d.item.network, size);
        EvictedRoom(live, p, d);
        var kept := EvictUntil(live, victim, size);
        CapsOfPart(p, live);
        UniqueFilter(p, live);
        StoredCaps(kept, d);
        PartSnoc(FromNetwork(victim), kept, d);
        PartSnoc(FromNetwork(d.item.network), kept, d);
      }
    }
  }

  lemma BlobsOk(live: seq<Deposit>)
    requires CapsHold(live)
    ensures forall d :: d in live ==> IsBlobSize(|d.item.blob|)
  {
  }

  /** A part of what is live has at least as much room for the deposit. */
  lemma EvictedRoom(live: seq<Deposit>, p: Deposit -> bool, d: Deposit)
    ensures NetBytes(Filter(p, live), d.item.network) <= NetBytes(live, d.item.network)
    ensures |Filter(InBox(d.box), Filter(p, live))| <= |Filter(InBox(d.box), live)|
    ensures BoxBytes(Filter(p, live), d.box) <= BoxBytes(live, d.box)
  {
    hide Bytes;
    FilterCommutes(FromNetwork(d.item.network), p, live);
    FilterCommutes(InBox(d.box), p, live);
    BytesOfPart(p, Filter(FromNetwork(d.item.network), live));
    BytesOfPart(p, Filter(InBox(d.box), live));
  }

  lemma StoredCaps(live: seq<Deposit>, d: Deposit)
    requires UniqueIds(live) && CapsHold(live) && IsBlobSize(|d.item.blob|)
    requires forall x :: x in live ==> x.item.id != d.item.id
    requires NetBytes(live, d.item.network) + |d.item.blob| <= MAX_BYTES_PER_NETWORK
    requires |Filter(InBox(d.box), live)| < MAX_ITEMS_PER_BOX &&
             BoxBytes(live, d.box) + |d.item.blob| <= MAX_BYTES_PER_BOX
    requires Bytes(live) + |d.item.blob| <= MAX_TOTAL_BYTES
    ensures UniqueIds(live + [d]) && CapsHold(live + [d])
  {
    CapsSnoc(live, d);
  }

  // ---------------------------------------------------------------- what each answer means

  /** What the deposit alone adds to each count. */
  lemma SnocCounts(live: seq<Deposit>, d: Deposit)
    ensures var live' := live + [d];
            && NetBytes(live', d.item.network) == NetBytes(live, d.item.network) + |d.item.blob|
            && |Filter(InBox(d.box), live')| == |Filter(InBox(d.box), live)| + 1
            && BoxBytes(live', d.box) == BoxBytes(live, d.box) + |d.item.blob|
            && Bytes(live') == Bytes(live) + |d.item.blob|
  {
    hide Bytes, Filter;
    PartSnoc(FromNetwork(d.item.network), live, d);
    PartSnoc(InBox(d.box), live, d);
  }

  ghost predicate NetworkOk(live: seq<Deposit>, n: Network) { NetBytes(live, n) <= MAX_BYTES_PER_NETWORK }

  ghost predicate BoxOk(live: seq<Deposit>, b: BoxId) {
    |Filter(InBox(b), live)| <= MAX_ITEMS_PER_BOX && BoxBytes(live, b) <= MAX_BYTES_PER_BOX
  }

  /** Even with what is over the total, and one largest blob more, taken from it, the victim holds
      strictly more than the depositor comes to with this deposit. */
  predicate SparesIt(live: seq<Deposit>, d: Deposit, victim: Network) {
    NetBytes(live, victim) - (Bytes(live + [d]) - MAX_TOTAL_BYTES) - LARGEST_BLOB > NetBytes(live + [d], d.item.network)
  }

  /** Each answer says what the deposit itself would do: a size no client sends, the network's, the
      box's or the whole store's cap broken with nobody to make room; and in every other case it is
      stored, behind everything live or, where the total would be broken, behind what eviction leaves. */
  lemma AnswerMeans(live: seq<Deposit>, d: Deposit, victim: Network, live': seq<Deposit>, answer: PutAnswer)
    requires PutStep(live, d, victim, live', answer)
    ensures answer == BadSize <==> !IsBlobSize(|d.item.blob|)
    ensures answer == NetworkFull <==> IsBlobSize(|d.item.blob|) && !NetworkOk(live + [d], d.item.network)
    ensures answer == BoxFull <==>
              IsBlobSize(|d.item.blob|) && NetworkOk(live + [d], d.item.network) && !BoxOk(live + [d], d.box)
    ensures answer == StoreFull <==>
              && IsBlobSize(|d.item.blob|) && NetworkOk(live + [d], d.item.network) && BoxOk(live + [d], d.box)
              && Bytes(live + [d]) > MAX_TOTAL_BYTES && !SparesIt(live, d, victim)
    ensures answer == StoreFull ==> forall n: Network :: NetBytes(live, n) <= NetBytes(live, victim)
    ensures answer == Stored && Bytes(live + [d]) <= MAX_TOTAL_BYTES ==> live' == live + [d]
  {
    hide Bytes, Filter, EvictUntil;
    SnocCounts(live, d);
  }

  /** A deposit that breaks no cap is stored, and nothing else changes. */
  lemma WithinCapsIsStored(live: seq<Deposit>, d: Deposit, victim: Network, live': seq<Deposit>, answer: PutAnswer)
    requires CapsHold(live + [d]) && PutStep(live, d, victim, live', answer)
    ensures answer == Stored && live' == live + [d]
  {
    hide Bytes, Filter, PutStep;
    AnswerMeans(live, d, victim, live', answer);
    assert d in live + [d];
    assert NetBytes(live + [d], d.item.network) <= MAX_BYTES_PER_NETWORK;
    assert BoxBytes(live + [d], d.box) <= MAX_BYTES_PER_BOX;
  }
}
