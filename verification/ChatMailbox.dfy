/**
 The chat mailbox as the server keeps it: boxes of items, a byte counter for the
 store and one per network, and each network's deposits in order for eviction.
 Collected entries stay in a network's queue until it is swept or emptied.
 */
module ChatMailboxStore {
  import opened MapSum
  import opened Seqs
  import opened Text
  import opened ChatMailboxSpec

  type Slot = (BoxId, ItemId)

  function Items(ds: seq<Deposit>): seq<Item> { seq(|ds|, i requires 0 <= i < |ds| => ds[i].item) }

  function Slots(ds: seq<Deposit>): seq<Slot> { seq(|ds|, i requires 0 <= i < |ds| => (ds[i].box, ds[i].item.id)) }

  ghost function IsLive(live: seq<Deposit>): Slot -> bool {
    (slot: Slot) => exists d :: d in live && d.box == slot.0 && d.item.id == slot.1
  }

  function OrderOf(order: map<Network, seq<Slot>>, n: Network): seq<Slot> {
    if n in order then order[n] else []
  }

  ghost predicate BoxesAgree(boxes: map<BoxId, seq<Item>>, live: seq<Deposit>) {
    forall b: BoxId ::
      && (b in boxes <==> Filter(InBox(b), live) != [])
      && (b in boxes ==> boxes[b] == Items(Filter(InBox(b), live)))
  }

  ghost predicate NetsAgree(bytes: map<Network, nat>, live: seq<Deposit>) {
    forall n: Network :: Get(bytes, n) == NetBytes(live, n) && (n in bytes ==> bytes[n] > 0)
  }

  /** A network's queue, entries already gone aside, is its live deposits in order. */
  ghost predicate OrderAgrees(order: map<Network, seq<Slot>>, live: seq<Deposit>) {
    forall n: Network :: Filter(IsLive(live), OrderOf(order, n)) == Slots(Filter(FromNetwork(n), live))
  }

  ghost predicate AllUsed(order: map<Network, seq<Slot>>, live: seq<Deposit>, used: set<ItemId>) {
    && (forall d :: d in live ==> d.item.id in used)
    && (forall n, slot :: n in order && slot in order[n] ==> slot.1 in used)
  }

  // ---------------------------------------------------------------- one deposit goes

  lemma WithoutAt(ds: seq<Deposit>, at: nat)
    requires UniqueIds(ds) && at < |ds|
    ensures Without(ds, ds[at].item.id) == ds[..at] + ds[at + 1..]
  {
    hide Filter;
    var p := NotId(ds[at].item.id);
    FilterAppend(p, ds[..at], ds[at..]);
    assert ds == ds[..at] + ds[at..];
    FilterKeeps(p, ds[..at]);
    FilterTail(p, ds[at..], 1);
    assert ds[at..][1..] == ds[at + 1..];
  }

  lemma ItemsWithoutAt(ds: seq<Deposit>, at: nat)
    requires UniqueIds(ds) && at < |ds|
    ensures Items(Without(ds, ds[at].item.id)) == Items(ds)[..at] + Items(ds)[at + 1..]
    ensures |Items(ds)| == |ds|
  {
    hide Filter;
    WithoutAt(ds, at);
  }

  lemma BoxesWithout(boxes: map<BoxId, seq<Item>>, live: seq<Deposit>, d: Deposit, at: nat)
    requires BoxesAgree(boxes, live) && UniqueIds(live) && d in live
    requires d.box in boxes && at < |Filter(InBox(d.box), live)| == |boxes[d.box]| &&
             Filter(InBox(d.box), live)[at] == d
    ensures var rest := boxes[d.box][..at] + boxes[d.box][at + 1..];
            BoxesAgree(if rest == [] then boxes - {d.box} else boxes[d.box := rest], Without(live, d.item.id))
  {
    hide Filter, Items;
    var rest := boxes[d.box][..at] + boxes[d.box][at + 1..];
    var boxes' := if rest == [] then boxes - {d.box} else boxes[d.box := rest];
    var live' := Without(live, d.item.id);
    UniqueFilter(InBox(d.box), live);
    ItemsWithoutAt(Filter(InBox(d.box), live), at);
    forall b: BoxId
      ensures (b in boxes' <==> Filter(InBox(b), live') != []) &&
              (b in boxes' ==> boxes'[b] == Items(Filter(InBox(b), live')))
    {
      PartWithout(InBox(b), live, d);
      ItemsLength(Filter(InBox(b), live'));
    }
  }

  lemma ItemsLength(ds: seq<Deposit>)
    ensures |Items(ds)| == |ds|
  {
  }

  lemma NetsWithout(bytes: map<Network, nat>, live: seq<Deposit>, d: Deposit)
    requires NetsAgree(bytes, live) && UniqueIds(live) && d in live && |d.item.blob| > 0
    ensures var n := d.item.network;
            && n in bytes && |d.item.blob| <= bytes[n]
            && NetsAgree(if bytes[n] == |d.item.blob| then bytes - {n} else bytes[n := bytes[n] - |d.item.blob|],
                         Without(live, d.item.id))
  {
    hide Filter, Bytes;
    var n := d.item.network;
    PartWithout(FromNetwork(n), live, d);
    assert Get(bytes, n) == NetBytes(live, n);
    var bytes' := if bytes[n] == |d.item.blob| then bytes - {n} else bytes[n := bytes[n] - |d.item.blob|];
    forall m: Network
      ensures Get(bytes', m) == NetBytes(Without(live, d.item.id), m) && (m in bytes' ==> bytes'[m] > 0)
    {
      PartWithout(FromNetwork(m), live, d);
      assert Get(bytes, m) == NetBytes(live, m);
    }
  }

  function NotSlot(id: ItemId): Slot -> bool { (slot: Slot) => slot.1 != id }

  lemma SlotsSnoc(ds: seq<Deposit>, d: Deposit)
    ensures Slots(ds + [d]) == Slots(ds) + [(d.box, d.item.id)]
  {
  }

  lemma {:induction false} SlotsFilter(ds: seq<Deposit>, id: ItemId)
    ensures Slots(Without(ds, id)) == Filter(NotSlot(id), Slots(ds))
  {
    if ds == [] {
      assert Slots(ds) == [];
    } else {
      hide Slots, Filter;
      var init, last := ds[..|ds| - 1], ds[|ds| - 1];
      SlotsFilter(init, id);
      assert ds == init + [last];
      SlotsSnoc(init, last);
      FilterSnoc(NotId(id), init, last);
      FilterSnoc(NotSlot(id), Slots(init), (last.box, last.item.id));
      SlotsSnoc(Without(init, id), last);
    }
  }

  lemma LiveWithout(live: seq<Deposit>, d: Deposit, slot: Slot)
    requires UniqueIds(live) && d in live
    ensures IsLive(Without(live, d.item.id))(slot) <==> IsLive(live)(slot) && NotSlot(d.item.id)(slot)
  {
  }

  lemma OrderWithout(order: map<Network, seq<Slot>>, live: seq<Deposit>, d: Deposit)
    requires OrderAgrees(order, live) && UniqueIds(live) && d in live
    ensures OrderAgrees(order, Without(live, d.item.id))
  {
    hide Filter;
    var live' := Without(live, d.item.id);
    forall n: Network
      ensures Filter(IsLive(live'), OrderOf(order, n)) == Slots(Filter(FromNetwork(n), live'))
    {
      forall slot
        ensures IsLive(live')(slot) == (NotSlot(d.item.id)(slot) && IsLive(live)(slot))
      {
        LiveWithout(live, d, slot);
      }
      FilterTwice(NotSlot(d.item.id), IsLive(live), IsLive(live'), OrderOf(order, n));
      PartWithout(FromNetwork(n), live, d);
      SlotsFilter(Filter(FromNetwork(n), live), d.item.id);
    }
  }

  // ---------------------------------------------------------------- the store

  class ChatMailbox {
    var boxes: map<BoxId, seq<Item>>
    var totalBytes: nat
    var networkBytes: map<Network, nat>
    var networkOrder: map<Network, seq<Slot>>
    /** The live deposits, oldest first. */
    ghost var live: seq<Deposit>
    /** Every item id ever deposited; ids are drawn at random and not reused. */
    ghost var used: set<ItemId>

    ghost predicate Valid()
      reads this
    {
      && UniqueIds(live) && CapsHold(live)
      && BoxesAgree(boxes, live)
      && totalBytes == Bytes(live)
      && NetsAgree(networkBytes, live)
      && OrderAgrees(networkOrder, live)
      && AllUsed(networkOrder, live, used)
    }

    constructor ()
      ensures Valid() && live == [] && used == {}
    {
      boxes, totalBytes, networkBytes, networkOrder, live, used := map[], 0, map[], map[], [], {};
      new;
      EmptyAgrees();
    }

    /** Take the item at `at` out of a box, and what it was charged to its network. */
    method Take(box: BoxId, at: nat) returns (item: Item)
      requires Valid() && box in boxes && at < |boxes[box]|
      modifies this
      ensures Valid() && used == old(used)
      ensures item == old(boxes)[box][at] && Deposit(box, item) in old(live)
      ensures live == Without(old(live), item.id)
      ensures totalBytes == old(totalBytes) - |item.blob|
      ensures boxes == var rest := old(boxes)[box][..at] + old(boxes)[box][at + 1..];
                       if rest == [] then old(boxes) - {box} else old(boxes)[box := rest]
      ensures forall n :: n in networkOrder ==> n in old(networkOrder) && networkOrder[n] == old(networkOrder)[n]
    {
      hide Filter, Bytes, BoxesAgree, NetsAgree, OrderAgrees, CapsHold;
      var items := boxes[box];
      item := items[at];
      ghost var d := Deposit(box, item);
      BoxItem(boxes, live, box, at);
      BlobsOk(live);
      BytesWithout(live, d);
      BoxesWithout(boxes, live, d, at);
      NetsWithout(networkBytes, live, d);
      OrderWithout(networkOrder, live, d);
      CapsOfPart(NotId(item.id), live);
      UniqueFilter(NotId(item.id), live);
      var rest := items[..at] + items[at + 1..];
      if rest == [] { boxes := boxes - {box}; } else { boxes := boxes[box := rest]; }
      totalBytes := totalBytes - |item.blob|;
      live := Without(live, item.id);
      var n := item.network;
      var bytes := networkBytes[n] - |item.blob|;
      if bytes == 0 {
        NoneLeft(networkBytes - {n}, networkOrder, live, n);
        networkBytes := networkBytes - {n};
        networkOrder := networkOrder - {n};
      } else {
        networkBytes := networkBytes[n := bytes];
      }
    }

    static method PositionOf(items: seq<Item>, id: ItemId) returns (at: nat)
      ensures at <= |items|
      ensures at < |items| ==> items[at].id == id
      ensures at == |items| ==> forall i :: 0 <= i < |items| ==> items[i].id != id
    {
      at := 0;
      while at < |items| && items[at].id != id
        invariant at <= |items|
        invariant forall i :: 0 <= i < at ==> items[i].id != id
      {
        at := at + 1;
      }
    }

    /** Drop the network's oldest live entry, passing over those already gone. */
    method EvictOldest(network: Network) returns (ok: bool)
      requires Valid()
      modifies this
      ensures Valid() && used == old(used)
      ensures ok <==> Filter(FromNetwork(network), old(live)) != []
      ensures ok ==> live == Without(old(live), Filter(FromNetwork(network), old(live))[0].item.id)
      ensures !ok ==> live == old(live)
    {
      hide Filter, Bytes, BoxesAgree, NetsAgree, OrderAgrees, CapsHold;
      while network in networkOrder && networkOrder[network] != []
        invariant Valid() && used == old(used) && live == old(live)
        decreases |OrderOf(networkOrder, network)|
      {
        var (mailbox, id) := networkOrder[network][0];
        if mailbox in boxes {
          var at := PositionOf(boxes[mailbox], id);
          if at < |boxes[mailbox]| {
            BoxItem(boxes, live, mailbox, at);
            HeadIsOldest(networkOrder, live, network, Deposit(mailbox, boxes[mailbox][at]));
            ghost var gone := boxes[mailbox][at];
            var _ := Take(mailbox, at);
            if network in networkOrder {
              HeadGone(networkOrder, live, network, gone.id);
              networkOrder := networkOrder[network := networkOrder[network][1..]];
            }
            return true;
          }
        }
        HeadStale(boxes, networkOrder, live, network);
        networkOrder := networkOrder[network := networkOrder[network][1..]];
      }
      QueueEmpty(networkOrder, live, network);
      ok := false;
    }

    /** Some network that none outweighs. */
    method Largest() returns (victim: Network)
      requires networkBytes != map[]
      ensures victim in networkBytes
      ensures forall n :: n in networkBytes ==> networkBytes[n] <= networkBytes[victim]
    {
      victim :| victim in networkBytes;
      var rest := networkBytes.Keys - {victim};
      while rest != {}
        invariant victim in networkBytes && rest <= networkBytes.Keys
        invariant forall n :: n in networkBytes && n !in rest ==> networkBytes[n] <= networkBytes[victim]
        decreases |rest|
      {
        var n :| n in rest;
        if networkBytes[n] > networkBytes[victim] { victim := n; }
        rest := rest - {n};
      }
    }

    /** Nothing to drop, a refusal with nothing dropped, or the victim's deposits dropped oldest
        first until `needed` fits: which one is settled by the totals before the loop. */
    method MakeRoom(depositor: Network, needed: nat) returns (ok: bool, ghost victim: Network)
      requires Valid() && IsBlobSize(needed)
      modifies this
      ensures Valid() && used == old(used)
      ensures Over(old(live), needed) == 0 ==> ok && live == old(live)
      ensures Over(old(live), needed) > 0 ==>
                && IsLargest(old(live), victim)
                && ok == MayEvict(old(live), victim, depositor, needed)
                && live == if ok then EvictUntil(old(live), victim, needed) else old(live)
      ensures ok ==> totalBytes + needed <= MAX_TOTAL_BYTES
    {
      hide Filter, Bytes, BoxesAgree, NetsAgree, OrderAgrees, CapsHold, EvictUntil, IsLargest;
      victim := 0;
      if totalBytes + needed <= MAX_TOTAL_BYTES { return true, victim; }
      var over := totalBytes + needed - MAX_TOTAL_BYTES;
      SomeNetwork(networkBytes, live);
      var largest := Largest();
      victim := largest;
      LargestHeld(networkBytes, live, largest);
      NetHeld(networkBytes, live, depositor);
      if largest == depositor || networkBytes[largest] <= Get(networkBytes, depositor) + needed + over + LARGEST_BLOB {
        return false, victim;
      }
      while totalBytes + needed > MAX_TOTAL_BYTES
        invariant Valid() && used == old(used)
        invariant EvictUntil(live, largest, needed) == EvictUntil(old(live), largest, needed)
        invariant Over(live, needed) <= NetBytes(live, largest)
        decreases |live|
      {
        EvictStep(live, largest, needed);
        var went := EvictOldest(largest);
        assert went;
      }
      EvictDone(live, largest, needed);
      ok := true;
    }

    /** Leave one deposit. Item ids are drawn fresh by the caller. */
    method Put(mailbox: BoxId, id: ItemId, blob: seq<Byte>, network: Network, now: int)
      returns (answer: PutAnswer, ghost victim: Network)
      requires Valid() && id !in used
      modifies this
      ensures Valid()
      ensures PutStep(old(live), Deposit(mailbox, Item(id, blob, now + ITEM_TTL, network)), victim, live, answer)
      ensures used == if answer == Stored then old(used) + {id} else old(used)
    {
      hide Filter, Bytes, BoxesAgree, NetsAgree, OrderAgrees, CapsHold, EvictUntil, IsLargest;
      victim := 0;
      if !IsBlobSize(|blob|) { return BadSize, victim; }
      NetHeld(networkBytes, live, network);
      if Get(networkBytes, network) + |blob| > MAX_BYTES_PER_NETWORK { return NetworkFull, victim; }
      BoxHeld(boxes, live, mailbox);
      if mailbox in boxes {
        var items := boxes[mailbox];
        if |items| >= MAX_ITEMS_PER_BOX || ItemBytes(items) + |blob| > MAX_BYTES_PER_BOX { return BoxFull, victim; }
      }
      var item := Item(id, blob, now + ITEM_TTL, network);
      var room;
      room, victim := MakeRoom(network, |blob|);
      if !room { return StoreFull, victim; }
      PutAgrees(old(live), victim, Deposit(mailbox, item), live);
      Append(mailbox, item);
      answer := Stored;
    }

    method Append(mailbox: BoxId, item: Item)
      requires Valid() && item.id !in used && |item.blob| > 0
      requires CapsHold(live + [Deposit(mailbox, item)])
      modifies this
      ensures Valid() && live == old(live) + [Deposit(mailbox, item)] && used == old(used) + {item.id}
    {
      hide Filter, Bytes, BoxesAgree, NetsAgree, OrderAgrees, CapsHold;
      ghost var d := Deposit(mailbox, item);
      BoxesSnoc(boxes, live, d);
      NetsSnoc(networkBytes, live, d);
      OrderSnoc(networkOrder, live, used, d);
      PartSnoc(InBox(mailbox), live, d);
      totalBytes := totalBytes + |item.blob|;
      networkBytes := networkBytes[item.network := Get(networkBytes, item.network) + |item.blob|];
      networkOrder := networkOrder[item.network := OrderOf(networkOrder, item.network) + [(mailbox, item.id)]];
      boxes := boxes[mailbox := ItemsOf(boxes, mailbox) + [item]];
      live := live + [d];
      used := used + {item.id};
    }

    /** Keep the items of one box that satisfy `keep`. How many went. */
    method RetainIn(box: BoxId, keep: Item -> bool) returns (removed: nat)
      requires Valid()
      modifies this
      ensures Valid() && used == old(used)
      ensures live == Filter(KeptIn(box, keep), old(live))
      ensures removed == |old(live)| - |live|
      ensures boxes.Keys <= old(boxes).Keys
    {
      hide Filter, Bytes, BoxesAgree, NetsAgree, OrderAgrees, CapsHold;
      ghost var p := KeptIn(box, keep);
      removed := 0;
      var at := 0;
      while box in boxes && at < |boxes[box]|
        invariant Valid() && used == old(used)
        invariant Filter(p, live) == Filter(p, old(live))
        invariant box in boxes ==> at <= |boxes[box]| && forall i :: 0 <= i < at ==> keep(boxes[box][i])
        invariant removed + |live| == |old(live)|
        invariant boxes.Keys <= old(boxes).Keys
        decreases if box in boxes then |boxes[box]| - at else 0
      {
        var item := boxes[box][at];
        if keep(item) {
          at := at + 1;
        } else {
          BoxItem(boxes, live, box, at);
          PartWithout(p, live, Deposit(box, item));
          BytesWithout(live, Deposit(box, item));
          var _ := Take(box, at);
          removed := removed + 1;
        }
      }
      AllKept(boxes, live, box, keep);
    }

    /** Drops exactly the live deposits of the box under the given ids, and counts them. */
    method Delete(mailbox: BoxId, ids: seq<ItemId>) returns (removed: nat)
      requires Valid()
      modifies this
      ensures Valid() && used == old(used)
      ensures live == Filter((d: Deposit) => !(d.box == mailbox && d.item.id in ids), old(live))
      ensures removed == |old(live)| - |live|
    {
      hide Filter, Bytes, BoxesAgree, NetsAgree, OrderAgrees, CapsHold;
      var keep := (item: Item) => item.id !in ids;
      removed := RetainIn(mailbox, keep);
      FilterSame(KeptIn(mailbox, keep), (d: Deposit) => !(d.box == mailbox && d.item.id in ids), old(live));
    }

    /** Drop what has expired, and the queues' record of entries already gone. */
    method PruneExpired(now: int) returns (removed: nat)
      requires Valid()
      modifies this
      ensures Valid() && used == old(used)
      ensures live == Filter(Unexpired(now), old(live))
      ensures removed == |old(live)| - |live|
      ensures forall n :: n in networkOrder ==> networkOrder[n] != []
      ensures forall n :: OrderOf(networkOrder, n) == Slots(Filter(FromNetwork(n), live))
    {
      hide Filter, Bytes, BoxesAgree, NetsAgree, OrderAgrees, CapsHold;
      var keep := (item: Item) => item.expiresAt > now;
      removed := 0;
      var todo := boxes.Keys;
      AllHeld(boxes, live);
      FilterKeeps(Unswept(todo, now), live);
      while todo != {}
        invariant Valid() && used == old(used)
        invariant live == Filter(Unswept(todo, now), old(live))
        invariant removed + |live| == |old(live)|
        decreases |todo|
      {
        var box :| box in todo;
        var went := RetainIn(box, keep);
        removed := removed + went;
        FilterTwice(KeptIn(box, keep), Unswept(todo, now), Unswept(todo - {box}, now), old(live));
        todo := todo - {box};
      }
      FilterSame(Unswept({}, now), Unexpired(now), old(live));
      SweepQueues();
    }

    method SweepQueues()
      requires Valid()
      modifies this`networkOrder
      ensures Valid()
      ensures forall n :: n in networkOrder ==> networkOrder[n] != []
      ensures forall n :: OrderOf(networkOrder, n) == Slots(Filter(FromNetwork(n), live))
    {
      hide Filter, Bytes, BoxesAgree, NetsAgree, OrderAgrees, CapsHold;
      SweptAgrees(boxes, networkOrder, live, used);
      networkOrder := Swept(boxes, networkOrder);
    }

    /** Adds the `i`th box's unexpired items to what the boxes before it gave, up to the limit. */
    method FetchBox(asked: seq<BoxId>, i: nat, sofar: seq<Entry>, now: int, limit: nat)
      returns (out: seq<Entry>, more: bool)
      requires Valid() && i < |asked|
      requires sofar == Entries(Fetchable(asked[..i], live, now)) && |sofar| <= limit
      ensures if more then var all := Entries(Fetchable(asked, live, now)); |all| > limit && out == all[..limit]
              else out == Entries(Fetchable(asked[..i + 1], live, now)) && |out| <= limit
    {
      hide Filter, Bytes, BoxesAgree, NetsAgree, OrderAgrees, CapsHold, Entries, Fetchable;
      var box := asked[i];
      ghost var mine := Filter(InBox(box), live);
      ghost var before := Fetchable(asked[..i], live, now);
      out := sofar;
      FetchableStep(asked, i, live, now);
      BoxHeld(boxes, live, box);
      if box !in boxes {
        FilterNone(Unexpired(now), mine);
        assert before + [] == before;
        return out, false;
      }
      var items := boxes[box];
      FilterNone(Unexpired(now), mine[..0]);
      assert before + [] == before;
      for j := 0 to |items|
        invariant out == Entries(before + Filter(Unexpired(now), mine[..j])) && |out| <= limit
      {
        BoxItem(boxes, live, box, j);
        FetchOne(before, mine, j, now);
        if items[j].expiresAt > now {
          if |out| >= limit {
            FetchPrefix(asked, i, j, live, now);
            return out, true;
          }
          out := out + [(box, items[j].id, items[j].blob)];
        }
      }
      assert mine[..|items|] == mine;
      more := false;
    }

    /** The first `limit` of what `Fetchable` lists; `more` exactly when that cut something off. */
    method Fetch(asked: seq<BoxId>, now: int, limit: nat) returns (out: seq<Entry>, more: bool)
      requires Valid()
      ensures var all := Entries(Fetchable(asked, live, now));
              && more == (|all| > limit)
              && out == if more then all[..limit] else all
    {
      hide Filter, Bytes, BoxesAgree, NetsAgree, OrderAgrees, CapsHold, Entries;
      out, more := [], false;
      EntriesNone();
      for i := 0 to |asked|
        invariant out == Entries(Fetchable(asked[..i], live, now)) && |out| <= limit
      {
        out, more := FetchBox(asked, i, out, now, limit);
        if more { return; }
      }
      assert asked[..|asked|] == asked;
      more := false;
    }
  }

  lemma EmptyAgrees()
    ensures UniqueIds([]) && CapsHold([]) && BoxesAgree(map[], []) && NetsAgree(map[], []) && OrderAgrees(map[], [])
  {
  }

  lemma BoxItem(boxes: map<BoxId, seq<Item>>, live: seq<Deposit>, box: BoxId, at: nat)
    requires BoxesAgree(boxes, live) && box in boxes && at < |boxes[box]|
    ensures |Filter(InBox(box), live)| == |boxes[box]|
    ensures Filter(InBox(box), live)[at] == Deposit(box, boxes[box][at])
    ensures Deposit(box, boxes[box][at]) in live
  {
    hide Filter;
    var ds := Filter(InBox(box), live);
    assert ds[at] in ds;
  }

  /** A network with nothing left needs no queue. */
  lemma NoneLeft(bytes: map<Network, nat>, order: map<Network, seq<Slot>>, live: seq<Deposit>, n: Network)
    requires NetsAgree(bytes, live) && n !in bytes && OrderAgrees(order, live)
    requires forall d :: d in live ==> |d.item.blob| > 0
    ensures OrderAgrees(order - {n}, live)
  {
    hide Filter, Bytes;
    assert Get(bytes, n) == NetBytes(live, n);
    NoBytesNone(Filter(FromNetwork(n), live));
    var order' := order - {n};
    forall m: Network
      ensures Filter(IsLive(live), OrderOf(order', m)) == Slots(Filter(FromNetwork(m), live))
    {
      if m == n {
        FilterNone(IsLive(live), []);
        assert Slots([]) == [];
      } else {
        assert OrderOf(order', m) == OrderOf(order, m);
      }
    }
  }

  lemma NoBytesNone(ds: seq<Deposit>)
    requires Bytes(ds) == 0 && forall d :: d in ds ==> |d.item.blob| > 0
    ensures ds == []
  {
  }

  // ---------------------------------------------------------------- the queue's head

  /** A live head is the network's oldest deposit. */
  lemma HeadIsOldest(order: map<Network, seq<Slot>>, live: seq<Deposit>, n: Network, d: Deposit)
    requires OrderAgrees(order, live) && UniqueIds(live)
    requires n in order && order[n] != [] && d in live && order[n][0] == (d.box, d.item.id)
    ensures Filter(FromNetwork(n), live) != [] && Filter(FromNetwork(n), live)[0] == d
  {
    hide Filter;
    var p, q := IsLive(live), order[n];
    FilterAppend(p, [q[0]], q[1..]);
    assert q == [q[0]] + q[1..];
    FilterKeeps(p, [q[0]]);
    var mine := Filter(FromNetwork(n), live);
    assert Filter(p, OrderOf(order, n)) == Slots(mine);
    assert Slots(mine)[0] == q[0];
    assert mine[0] in mine && mine[0] in live;
    SameId(live, d);
  }

  /** Taking a head that is no longer live off its queue changes nothing. */
  lemma PopStale(order: map<Network, seq<Slot>>, live: seq<Deposit>, n: Network)
    requires OrderAgrees(order, live) && n in order && order[n] != []
    requires !IsLive(live)(order[n][0])
    ensures OrderAgrees(order[n := order[n][1..]], live)
  {
    hide Filter;
    var p, q := IsLive(live), order[n];
    var order' := order[n := q[1..]];
    FilterAppend(p, [q[0]], q[1..]);
    assert q == [q[0]] + q[1..];
    FilterNone(p, [q[0]]);
    assert [] + Filter(p, q[1..]) == Filter(p, q[1..]);
    forall m: Network
      ensures Filter(p, OrderOf(order', m)) == Slots(Filter(FromNetwork(m), live))
    {
      assert Filter(p, OrderOf(order, m)) == Slots(Filter(FromNetwork(m), live));
    }
  }

  lemma HeadGone(order: map<Network, seq<Slot>>, live: seq<Deposit>, n: Network, id: ItemId)
    requires OrderAgrees(order, live) && n in order && order[n] != [] && order[n][0].1 == id
    requires forall d :: d in live ==> d.item.id != id
    ensures OrderAgrees(order[n := order[n][1..]], live)
  {
    PopStale(order, live, n);
  }

  /** A head no box holds is not live. */
  lemma HeadStale(boxes: map<BoxId, seq<Item>>, order: map<Network, seq<Slot>>, live: seq<Deposit>, n: Network)
    requires BoxesAgree(boxes, live) && OrderAgrees(order, live) && n in order && order[n] != []
    requires var (box, id) := order[n][0];
             box in boxes ==> forall i :: 0 <= i < |boxes[box]| ==> boxes[box][i].id != id
    ensures OrderAgrees(order[n := order[n][1..]], live)
  {
    hide Filter;
    var (box, id) := order[n][0];
    if d :| d in live && d.box == box && d.item.id == id {
      var ds := Filter(InBox(box), live);
      assert d in ds;
      var i :| 0 <= i < |ds| && ds[i] == d;
      assert boxes[box][i] == d.item;
    }
    PopStale(order, live, n);
  }

  lemma QueueEmpty(order: map<Network, seq<Slot>>, live: seq<Deposit>, n: Network)
    requires OrderAgrees(order, live) && OrderOf(order, n) == []
    ensures Filter(FromNetwork(n), live) == []
  {
    hide Filter;
    FilterNone(IsLive(live), []);
    assert Filter(IsLive(live), OrderOf(order, n)) == Slots(Filter(FromNetwork(n), live));
  }

  // ---------------------------------------------------------------- one deposit comes

  function ItemsOf(boxes: map<BoxId, seq<Item>>, box: BoxId): seq<Item> {
    if box in boxes then boxes[box] else []
  }

  function ItemBytes(items: seq<Item>): nat {
    if items == [] then 0 else ItemBytes(items[..|items| - 1]) + |items[|items| - 1].blob|
  }

  lemma {:induction false} ItemBytesAgree(ds: seq<Deposit>)
    ensures ItemBytes(Items(ds)) == Bytes(ds)
  {
    if ds != [] {
      ItemBytesAgree(ds[..|ds| - 1]);
      assert Items(ds)[..|ds| - 1] == Items(ds[..|ds| - 1]);
    }
  }

  lemma NetHeld(bytes: map<Network, nat>, live: seq<Deposit>, n: Network)
    requires NetsAgree(bytes, live)
    ensures Get(bytes, n) == NetBytes(live, n)
  {
    hide Filter, Bytes;
  }

  lemma BoxHeld(boxes: map<BoxId, seq<Item>>, live: seq<Deposit>, box: BoxId)
    requires BoxesAgree(boxes, live)
    ensures box in boxes <==> Filter(InBox(box), live) != []
    ensures |ItemsOf(boxes, box)| == |Filter(InBox(box), live)|
    ensures ItemBytes(ItemsOf(boxes, box)) == BoxBytes(live, box)
  {
    hide Filter, Bytes;
    ItemBytesAgree(Filter(InBox(box), live));
    assert box !in boxes ==> Items(Filter(InBox(box), live)) == [];
  }

  lemma LargestHeld(bytes: map<Network, nat>, live: seq<Deposit>, victim: Network)
    requires NetsAgree(bytes, live) && victim in bytes
    requires forall n :: n in bytes ==> bytes[n] <= bytes[victim]
    ensures IsLargest(live, victim) && NetBytes(live, victim) == bytes[victim]
  {
    hide Filter, Bytes;
    assert Get(bytes, victim) == NetBytes(live, victim);
    forall n: Network
      ensures NetBytes(live, n) <= NetBytes(live, victim)
    {
      assert Get(bytes, n) == NetBytes(live, n);
    }
  }

  lemma SomeNetwork(bytes: map<Network, nat>, live: seq<Deposit>)
    requires NetsAgree(bytes, live) && CapsHold(live) && Bytes(live) > 0
    ensures bytes != map[]
  {
    hide Filter;
    var d := live[0];
    var mine := Filter(FromNetwork(d.item.network), live);
    assert d in mine;
    BlobsOk(live);
    if Bytes(mine) == 0 { NoBytesNone(mine); }
    assert Get(bytes, d.item.network) == NetBytes(live, d.item.network);
  }

  /** While too much is held the victim has a deposit to lose, and losing it is the next
      step of the eviction. */
  lemma EvictStep(live: seq<Deposit>, victim: Network, needed: nat)
    requires UniqueIds(live)
    requires 0 < Over(live, needed) <= NetBytes(live, victim)
    ensures var mine := Filter(FromNetwork(victim), live);
            && mine != []
            && var rest := Without(live, mine[0].item.id);
               && |rest| < |live|
               && EvictUntil(rest, victim, needed) == EvictUntil(live, victim, needed)
               && Over(rest, needed) <= NetBytes(rest, victim)
  {
    hide Filter;
    var mine := Filter(FromNetwork(victim), live);
    FirstGone(live, victim);
    BytesAppend([mine[0]], mine[1..]);
    assert mine == [mine[0]] + mine[1..];
    assert [mine[0]][..0] == [];
  }

  lemma EvictDone(live: seq<Deposit>, victim: Network, needed: nat)
    requires Bytes(live) + needed <= MAX_TOTAL_BYTES
    ensures EvictUntil(live, victim, needed) == live
  {
  }

  /** Once room is made, the deposit may be stored within every cap. */
  lemma PutAgrees(was: seq<Deposit>, victim: Network, d: Deposit, live: seq<Deposit>)
    requires UniqueIds(was) && CapsHold(was) && (forall x :: x in was ==> x.item.id != d.item.id)
    requires PutStep(was, d, victim, live + [d], Stored)
    ensures CapsHold(live + [d])
  {
    PutKeepsCaps(was, d, victim, live + [d], Stored);
  }

  lemma BoxesSnoc(boxes: map<BoxId, seq<Item>>, live: seq<Deposit>, d: Deposit)
    requires BoxesAgree(boxes, live)
    ensures BoxesAgree(boxes[d.box := ItemsOf(boxes, d.box) + [d.item]], live + [d])
  {
    hide Filter;
    var boxes' := boxes[d.box := ItemsOf(boxes, d.box) + [d.item]];
    forall b: BoxId
      ensures (b in boxes' <==> Filter(InBox(b), live + [d]) != []) &&
              (b in boxes' ==> boxes'[b] == Items(Filter(InBox(b), live + [d])))
    {
      FilterSnoc(InBox(b), live, d);
      assert b in boxes <==> Filter(InBox(b), live) != [];
    }
  }

  lemma NetsSnoc(bytes: map<Network, nat>, live: seq<Deposit>, d: Deposit)
    requires NetsAgree(bytes, live) && |d.item.blob| > 0
    ensures NetsAgree(bytes[d.item.network := Get(bytes, d.item.network) + |d.item.blob|], live + [d])
  {
    hide Filter, Bytes;
    var bytes' := bytes[d.item.network := Get(bytes, d.item.network) + |d.item.blob|];
    forall m: Network
      ensures Get(bytes', m) == NetBytes(live + [d], m) && (m in bytes' ==> bytes'[m] > 0)
    {
      PartSnoc(FromNetwork(m), live, d);
      assert Get(bytes, m) == NetBytes(live, m);
    }
  }

  /** With a fresh id no entry already gone comes back to life. */
  lemma OrderSnoc(order: map<Network, seq<Slot>>, live: seq<Deposit>, used: set<ItemId>, d: Deposit)
    requires OrderAgrees(order, live) && AllUsed(order, live, used) && d.item.id !in used
    ensures OrderAgrees(order[d.item.network := OrderOf(order, d.item.network) + [(d.box, d.item.id)]], live + [d])
  {
    hide Filter, Slots;
    var slot := (d.box, d.item.id);
    var order' := order[d.item.network := OrderOf(order, d.item.network) + [slot]];
    var p, p' := IsLive(live), IsLive(live + [d]);
    forall m: Network
      ensures Filter(p', OrderOf(order', m)) == Slots(Filter(FromNetwork(m), live + [d]))
    {
      var q := OrderOf(order, m);
      assert Filter(p, q) == Slots(Filter(FromNetwork(m), live));
      FilterSame(p, p', q) by {
        forall x | x in q ensures p(x) == p'(x) { OldSlot(live, d, x); }
      }
      FilterSnoc(FromNetwork(m), live, d);
      if m == d.item.network {
        assert d in live + [d];
        FilterSnoc(p', q, slot);
        SlotsSnoc(Filter(FromNetwork(m), live), d);
      }
    }
  }

  lemma OldSlot(live: seq<Deposit>, d: Deposit, slot: Slot)
    requires slot.1 != d.item.id
    ensures IsLive(live)(slot) == IsLive(live + [d])(slot)
  {
  }

  // ---------------------------------------------------------------- several deposits go

  function KeptIn(box: BoxId, keep: Item -> bool): Deposit -> bool { (d: Deposit) => d.box == box ==> keep(d.item) }

  function Unexpired(now: int): Deposit -> bool { (d: Deposit) => d.item.expiresAt > now }

  /** Still held while the sweep has `todo` left to visit. */
  function Unswept(todo: set<BoxId>, now: int): Deposit -> bool {
    (d: Deposit) => d.box in todo || d.item.expiresAt > now
  }

  predicate HoldsId(items: seq<Item>, id: ItemId) { exists i :: 0 <= i < |items| && items[i].id == id }

  function HoldsSlot(boxes: map<BoxId, seq<Item>>): Slot -> bool {
    (slot: Slot) => slot.0 in boxes && HoldsId(boxes[slot.0], slot.1)
  }

  lemma AllKept(boxes: map<BoxId, seq<Item>>, live: seq<Deposit>, box: BoxId, keep: Item -> bool)
    requires BoxesAgree(boxes, live)
    requires box in boxes ==> forall i :: 0 <= i < |boxes[box]| ==> keep(boxes[box][i])
    ensures Filter(KeptIn(box, keep), live) == live
  {
    hide Filter;
    forall d | d in live ensures KeptIn(box, keep)(d) {
      if d.box == box { var _ := ItemAt(boxes, live, d); }
    }
    FilterKeeps(KeptIn(box, keep), live);
  }

  lemma ItemAt(boxes: map<BoxId, seq<Item>>, live: seq<Deposit>, d: Deposit) returns (i: nat)
    requires BoxesAgree(boxes, live) && d in live
    ensures d.box in boxes && i < |boxes[d.box]| && boxes[d.box][i] == d.item
  {
    hide Filter;
    var ds := Filter(InBox(d.box), live);
    assert d in ds;
    i :| 0 <= i < |ds| && ds[i] == d;
  }

  lemma AllHeld(boxes: map<BoxId, seq<Item>>, live: seq<Deposit>)
    requires BoxesAgree(boxes, live)
    ensures forall d :: d in live ==> d.box in boxes
  {
    hide Filter;
    forall d | d in live ensures d.box in boxes { var _ := ItemAt(boxes, live, d); }
  }

  lemma HeldIsLive(boxes: map<BoxId, seq<Item>>, live: seq<Deposit>, slot: Slot)
    requires BoxesAgree(boxes, live)
    ensures HoldsSlot(boxes)(slot) == IsLive(live)(slot)
  {
    hide Filter;
    if d :| d in live && d.box == slot.0 && d.item.id == slot.1 {
      var i := ItemAt(boxes, live, d);
    }
    if HoldsSlot(boxes)(slot) {
      var i :| 0 <= i < |boxes[slot.0]| && boxes[slot.0][i].id == slot.1;
      BoxItem(boxes, live, slot.0, i);
    }
  }

  /** Each queue with only the entries still held, and no empty queue. */
  function Swept(boxes: map<BoxId, seq<Item>>, order: map<Network, seq<Slot>>): (r: map<Network, seq<Slot>>)
    ensures forall n :: n in r ==> n in order && r[n] == Filter(HoldsSlot(boxes), order[n]) != []
    ensures forall n :: n in order && n !in r ==> Filter(HoldsSlot(boxes), order[n]) == []
  {
    map n | n in order && Filter(HoldsSlot(boxes), order[n]) != [] :: Filter(HoldsSlot(boxes), order[n])
  }

  /** Queues swept down to what the boxes hold are exactly the live deposits. */
  lemma SweptAgrees(boxes: map<BoxId, seq<Item>>, order: map<Network, seq<Slot>>, live: seq<Deposit>, used: set<ItemId>)
    requires BoxesAgree(boxes, live) && OrderAgrees(order, live)
    ensures OrderAgrees(Swept(boxes, order), live)
    ensures forall n :: OrderOf(Swept(boxes, order), n) == Slots(Filter(FromNetwork(n), live))
    ensures AllUsed(order, live, used) ==> AllUsed(Swept(boxes, order), live, used)
  {
    hide Filter, Slots, Swept;
    var held, p := HoldsSlot(boxes), IsLive(live);
    var order' := Swept(boxes, order);
    forall slot ensures held(slot) == p(slot) { HeldIsLive(boxes, live, slot); }
    forall n: Network
      ensures OrderOf(order', n) == Slots(Filter(FromNetwork(n), live)) &&
              Filter(p, OrderOf(order', n)) == Slots(Filter(FromNetwork(n), live))
    {
      var q := OrderOf(order, n);
      FilterSame(held, p, q);
      FilterNone(p, []);
      assert Filter(p, q) == Slots(Filter(FromNetwork(n), live));
      assert OrderOf(order', n) == Filter(p, q);
      FilterTwice(p, p, p, q);
    }
  }

  // ---------------------------------------------------------------- fetching

  type Entry = (BoxId, ItemId, seq<Byte>)

  function Entries(ds: seq<Deposit>): seq<Entry> {
    seq(|ds|, i requires 0 <= i < |ds| => (ds[i].box, ds[i].item.id, ds[i].item.blob))
  }

  /** What a fetch with no limit returns: box after box as asked, each oldest first. */
  function Fetchable(asked: seq<BoxId>, live: seq<Deposit>, now: int): seq<Deposit> {
    if asked == [] then []
    else
      Fetchable(asked[..|asked| - 1], live, now) + Filter(Unexpired(now), Filter(InBox(asked[|asked| - 1]), live))
  }

  /** Exactly the unexpired deposits of the boxes asked for. */
  lemma {:induction false} FetchableIff(asked: seq<BoxId>, live: seq<Deposit>, now: int, d: Deposit)
    ensures d in Fetchable(asked, live, now) <==> d in live && d.box in asked && d.item.expiresAt > now
  {
    if asked != [] {
      hide Filter;
      FetchableIff(asked[..|asked| - 1], live, now, d);
      assert asked == asked[..|asked| - 1] + [asked[|asked| - 1]];
    }
  }

  lemma EntriesNone()
    ensures Entries([]) == []
  {
  }

  lemma EntriesSnoc(ds: seq<Deposit>, d: Deposit)
    ensures Entries(ds + [d]) == Entries(ds) + [(d.box, d.item.id, d.item.blob)]
  {
  }

  lemma FetchableStep(asked: seq<BoxId>, i: nat, live: seq<Deposit>, now: int)
    requires i < |asked|
    ensures Fetchable(asked[..i + 1], live, now)
         == Fetchable(asked[..i], live, now) + Filter(Unexpired(now), Filter(InBox(asked[i]), live))
  {
    assert asked[..i + 1][..i] == asked[..i];
  }

  /** One more item of a box considered. */
  lemma FetchOne(before: seq<Deposit>, mine: seq<Deposit>, j: nat, now: int)
    requires j < |mine|
    ensures var sofar := Entries(before + Filter(Unexpired(now), mine[..j]));
            var next := Entries(before + Filter(Unexpired(now), mine[..j + 1]));
            next == if mine[j].item.expiresAt > now then sofar + [(mine[j].box, mine[j].item.id, mine[j].item.blob)]
                    else sofar
  {
    hide Filter, Entries;
    assert mine[..j + 1] == mine[..j] + [mine[j]];
    FilterSnoc(Unexpired(now), mine[..j], mine[j]);
    var f := Filter(Unexpired(now), mine[..j]);
    assert before + (f + [mine[j]]) == (before + f) + [mine[j]];
    EntriesSnoc(before + f, mine[j]);
  }

  lemma {:induction false} FetchableGrows(asked: seq<BoxId>, i: nat, live: seq<Deposit>, now: int)
    requires i <= |asked|
    ensures IsPrefix(Fetchable(asked[..i], live, now), Fetchable(asked, live, now))
    decreases |asked| - i
  {
    hide Filter, Fetchable;
    if i == |asked| {
      assert asked[..i] == asked;
    } else {
      FetchableStep(asked, i, live, now);
      FetchableGrows(asked, i + 1, live, now);
    }
  }

  /** What is collected before the limit bites is a proper prefix of everything asked for. */
  lemma FetchPrefix(asked: seq<BoxId>, i: nat, j: nat, live: seq<Deposit>, now: int)
    requires i < |asked| && j < |Filter(InBox(asked[i]), live)|
    requires Filter(InBox(asked[i]), live)[j].item.expiresAt > now
    ensures var sofar := Entries(Fetchable(asked[..i], live, now) +
                                 Filter(Unexpired(now), Filter(InBox(asked[i]), live)[..j]));
            var all := Entries(Fetchable(asked, live, now));
            |sofar| < |all| && sofar == all[..|sofar|]
  {
    hide Filter, Fetchable;
    var mine := Filter(InBox(asked[i]), live);
    var before, f := Fetchable(asked[..i], live, now), Filter(Unexpired(now), mine[..j]);
    FetchableStep(asked, i, live, now);
    FetchableGrows(asked, i + 1, live, now);
    FilterAppend(Unexpired(now), mine[..j], mine[j..]);
    assert mine == mine[..j] + mine[j..];
    assert mine[j] in mine[j..];
    assert mine[j] in Filter(Unexpired(now), mine[j..]);
    assert before + (f + Filter(Unexpired(now), mine[j..])) == (before + f) + Filter(Unexpired(now), mine[j..]);
  }
}
