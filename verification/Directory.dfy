/**
 The public directory: a ranking of the listed rooms by seniority, served in pages that
 start strictly after a cursor. The ranking may be rebuilt between any two pages.
 */
module Directory {
  import opened Options
  import opened Int64
  import opened MapSum
  import opened Seqs
  import opened Text
  import opened RegistrySpec
  import opened RegistrySafety

  const CHANNEL_DIRECTORY_STALE_SECS: int := 7 * DAY
  const MAX_DIRECTORY_LISTINGS: nat := 5_000

  /** A place in the ranking: when the name was first claimed, then the room. */
  datatype Cursor = Cursor(createdAt: nat, room: RoomId)

  predicate Less(a: Cursor, b: Cursor) {
    a.createdAt < b.createdAt || (a.createdAt == b.createdAt && a.room < b.room)
  }

  ghost predicate Rising(keys: seq<Cursor>) { forall i, j :: 0 <= i < j < |keys| ==> Less(keys[i], keys[j]) }

  // ---------------------------------------------------------------- the cursor on the wire

  const ROOM_CHARS: nat := 32

  function Pow16(k: nat): nat { if k == 0 then 1 else 16 * Pow16(k - 1) }

  predicate IsHexDigit(c: char) { '0' <= c <= '9' || 'a' <= c <= 'f' || 'A' <= c <= 'F' }

  predicate AllHex(s: string) { forall i :: 0 <= i < |s| ==> IsHexDigit(s[i]) }

  function HexValue(c: char): nat
    requires IsHexDigit(c)
  {
    if c <= '9' then c as int - '0' as int
    else if c <= 'F' then 10 + (c as int - 'A' as int)
    else 10 + (c as int - 'a' as int)
  }

  /** Read without regard to case. */
  function ParseHex(s: string): nat
    requires AllHex(s)
  {
    if s == "" then 0 else 16 * ParseHex(s[..|s| - 1]) + HexValue(s[|s| - 1])
  }

  /** The low `k` hexadecimal digits, lower case. */
  function HexDigits(n: nat, k: nat): (r: string)
    ensures |r| == k && AllHex(r) && '.' !in r
  {
    if k == 0 then "" else HexDigits(n / 16, k - 1) + [DIGITS[n % 16]]
  }

  predicate ValidCursor(c: Cursor) { c.createdAt <= I64_MAX && c.room < Pow16(ROOM_CHARS) }

  function Encode(c: Cursor): string { Decimal(c.createdAt) + "." + HexDigits(c.room, ROOM_CHARS) }

  /** Where the first dot is, or the length if there is none. */
  function FirstDot(s: string): (i: nat)
    ensures i <= |s| && '.' !in s[..i] && (i < |s| ==> s[i] == '.')
  {
    if s == "" || s[0] == '.' then 0 else 1 + FirstDot(s[1..])
  }

  function Parse(raw: string): Option<Cursor> {
    var dot := FirstDot(raw);
    if dot == |raw| then None
    else
      var created, room := raw[..dot], raw[dot + 1..];
      if created == "" || |created| > 19 || !AllDigits(created) || |room| != ROOM_CHARS || !AllHex(room) then None
      else if ParseDecimal(created) > I64_MAX then None
      else Some(Cursor(ParseDecimal(created), ParseHex(room)))
  }

  lemma SplitNibble(n: nat, bound: nat)
    requires n < 16 * bound
    ensures n / 16 < bound && n % 16 < 16 && 16 * (n / 16) + n % 16 == n
  {
  }

  lemma NibbleDigit(d: nat)
    requires d < 16
    ensures IsHexDigit(DIGITS[d]) && HexValue(DIGITS[d]) == d
  {
  }

  lemma ParseHexLast(s: string, c: char)
    requires AllHex(s) && IsHexDigit(c)
    ensures AllHex(s + [c]) && ParseHex(s + [c]) == 16 * ParseHex(s) + HexValue(c)
  {
    assert (s + [c])[..|s|] == s;
  }

  lemma {:induction false} HexRoundTrip(n: nat, k: nat)
    requires n < Pow16(k)
    ensures ParseHex(HexDigits(n, k)) == n
  {
    if k > 0 {
      hide ParseHex, HexValue, IsHexDigit, AllHex;
      SplitNibble(n, Pow16(k - 1));
      NibbleDigit(n % 16);
      HexRoundTrip(n / 16, k - 1);
      ParseHexLast(HexDigits(n / 16, k - 1), DIGITS[n % 16]);
    }
  }

  lemma {:induction false} FirstDotAfter(a: string, b: string)
    requires '.' !in a
    ensures FirstDot(a + "." + b) == |a|
  {
    var s := a + "." + b;
    if a != "" {
      FirstDotAfter(a[1..], b);
      assert s[1..] == a[1..] + "." + b;
    }
  }

  /** Parsing an encoded cursor gives it back. */
  lemma CursorRoundTrip(c: Cursor)
    requires ValidCursor(c)
    ensures Parse(Encode(c)) == Some(c)
  {
    hide Decimal, HexDigits, FirstDot, ParseDecimal, ParseHex, Pow16;
    var created, room := Decimal(c.createdAt), HexDigits(c.room, ROOM_CHARS);
    FirstDotAfter(created, room);
    var raw := Encode(c);
    assert raw[..|created|] == created && raw[|created| + 1..] == room;
    SignedLength(c.createdAt);
    DecimalRoundTrip(c.createdAt);
    HexRoundTrip(c.room, ROOM_CHARS);
  }

  lemma {:induction false} ParsedHexBound(s: string)
    requires AllHex(s)
    ensures ParseHex(s) < Pow16(|s|)
  {
    if s != "" { ParsedHexBound(s[..|s| - 1]); }
  }

  /** Whatever parses is a cursor the server could have sent, up to leading zeros and case. */
  lemma ParsedIsValid(raw: string)
    requires Parse(raw).Some?
    ensures ValidCursor(Parse(raw).value) && Parse(Encode(Parse(raw).value)) == Parse(raw)
  {
    hide Pow16, ParseHex, ParseDecimal, FirstDot;
    ParsedHexBound(raw[FirstDot(raw) + 1..]);
    CursorRoundTrip(Parse(raw).value);
  }

  // ---------------------------------------------------------------- the ranking

  function KeyOf(r: Record): Cursor { Cursor(if r.createdAt < 0 then 0 else r.createdAt, r.room) }

  predicate IsListed(s: Registry, now: int, n: Name) {
    && n in s.names
    && !s.names[n].private && s.names[n].IsCurrent()
    && s.names[n].room !in s.deleted
    && now - s.names[n].refreshedAt <= CHANNEL_DIRECTORY_STALE_SECS
  }

  function Listed(s: Registry, now: int): (r: set<Name>)
    ensures forall n :: n in r ==> n in s.names
  {
    set n | n in s.names && IsListed(s, now, n)
  }

  predicate Before(s: Registry, n: Name, m: Name) {
    n in s.names && m in s.names && Less(KeyOf(s.names[n]), KeyOf(s.names[m]))
  }

  ghost predicate Ascends(s: Registry, out: seq<Name>) {
    && (forall n :: n in out ==> n in s.names)
    && (forall i, j :: 0 <= i < j < |out| ==> Before(s, out[i], out[j]))
  }

  function AtMost(n: nat, m: nat): nat { if n <= m then n else m }

  /** The most senior of all listings, up to the limit, in order. */
  ghost predicate IsRanking(s: Registry, now: int, out: seq<Name>) {
    && Ascends(s, out)
    && (forall n :: n in out ==> n in Listed(s, now))
    && |out| == AtMost(|Listed(s, now)|, MAX_DIRECTORY_LISTINGS)
    && (forall n, m :: n in out && m in Listed(s, now) && m !in out ==> Before(s, n, m))
  }

  /** Two listings have different keys: a room lists at most its one current name. */
  lemma KeysDiffer(s: Registry, now: int, n: Name, m: Name)
    requires OneCurrent(s.names) && n in Listed(s, now) && m in Listed(s, now) && n != m
    ensures Before(s, n, m) || Before(s, m, n)
    ensures !(Before(s, n, m) && Before(s, m, n))
  {
    if s.names[n].room == s.names[m].room {
      assert IsCurrentOf(s.names, s.names[n].room, n) && IsCurrentOf(s.names, s.names[n].room, m);
    }
  }

  function Insert(s: Registry, n: Name, out: seq<Name>): (r: seq<Name>)
    requires n in s.names && forall m :: m in out ==> m in s.names
    ensures |r| == |out| + 1 && forall m :: m in r <==> m == n || m in out
  {
    if out == [] || Before(s, n, out[0]) then [n] + out
    else
      var rest := Insert(s, n, out[1..]);
      assert forall m :: m in out <==> m == out[0] || m in out[1..];
      [out[0]] + rest
  }

  lemma AscendsCons(s: Registry, n: Name, out: seq<Name>)
    requires n in s.names && Ascends(s, out) && forall m :: m in out ==> Before(s, n, m)
    ensures Ascends(s, [n] + out)
  {
    var r := [n] + out;
    forall i, j | 0 <= i < j < |r| ensures Before(s, r[i], r[j]) {
      assert r[j] == out[j - 1] && r[j] in out;
      assert i > 0 ==> r[i] == out[i - 1];
    }
  }

  lemma AscendsTail(s: Registry, out: seq<Name>)
    requires Ascends(s, out) && out != []
    ensures Ascends(s, out[1..]) && forall m :: m in out[1..] ==> Before(s, out[0], m)
  {
    forall m | m in out[1..] ensures Before(s, out[0], m) {
      var i :| 0 <= i < |out| - 1 && out[1..][i] == m;
      assert out[i + 1] == m;
    }
  }

  lemma {:induction false} InsertAscends(s: Registry, now: int, n: Name, out: seq<Name>)
    requires OneCurrent(s.names) && Ascends(s, out) && n !in out && n in Listed(s, now)
    requires forall m :: m in out ==> m in Listed(s, now)
    ensures Ascends(s, Insert(s, n, out))
  {
    hide Ascends, Before, Listed, OneCurrent;
    if out == [] {
      AscendsOne(s, n);
      assert Insert(s, n, out) == [n];
    } else {
      AscendsMembers(s, out);
      AscendsTail(s, out);
      assert out[0] in out && forall m :: m in out[1..] ==> m in out;
      KeysDiffer(s, now, n, out[0]);
      if Before(s, n, out[0]) {
        forall m | m in out ensures Before(s, n, m) {
          if m != out[0] {
            assert m in out[1..];
            BeforeTransitive(s, n, out[0], m);
          }
        }
        AscendsCons(s, n, out);
      } else {
        InsertAscends(s, now, n, out[1..]);
        AscendsCons(s, out[0], Insert(s, n, out[1..]));
      }
    }
  }

  lemma AscendsMembers(s: Registry, out: seq<Name>)
    requires Ascends(s, out)
    ensures forall n :: n in out ==> n in s.names
  {
  }

  lemma AscendsOne(s: Registry, n: Name)
    requires n in s.names
    ensures Ascends(s, [n]) && Ascends(s, [])
  {
  }

  lemma BeforeTransitive(s: Registry, a: Name, b: Name, c: Name)
    requires a in s.names && b in s.names && c in s.names && Before(s, a, b) && Before(s, b, c)
    ensures Before(s, a, c)
  {
  }

  /** Any order with the `k` smallest in front, as a partial sort leaves it. */
  ghost predicate Partitioned(s: Registry, out: seq<Name>, k: nat) {
    forall i, j :: 0 <= i < k <= j < |out| ==> !Before(s, out[j], out[i])
  }

  function InsertionSort(s: Registry, out: seq<Name>): (r: seq<Name>)
    requires forall n :: n in out ==> n in s.names
    ensures |r| == |out| && forall m :: m in r <==> m in out
  {
    if out == [] then []
    else
      assert forall m :: m in out <==> m == out[0] || m in out[1..];
      Insert(s, out[0], InsertionSort(s, out[1..]))
  }

  lemma {:induction false} SortAscends(s: Registry, now: int, out: seq<Name>)
    requires OneCurrent(s.names) && NoRepeats(out) && forall n :: n in out ==> n in s.names && n in Listed(s, now)
    ensures Ascends(s, InsertionSort(s, out))
  {
    if out != [] {
      hide Ascends, Insert, Listed, OneCurrent;
      assert forall m :: m in out <==> m == out[0] || m in out[1..];
      SortAscends(s, now, out[1..]);
      InsertAscends(s, now, out[0], InsertionSort(s, out[1..]));
    } else {
      assert InsertionSort(s, out) == [];
    }
  }

  /** A partial sort: all that is promised is the same listings with the `k` smallest in front. */
  method SelectSmallest(s: Registry, ghost now: int, out: seq<Name>, k: nat) returns (r: seq<Name>)
    requires OneCurrent(s.names) && NoRepeats(out) && k <= |out| && forall n :: n in out ==> n in Listed(s, now)
    ensures |r| == |out| && NoRepeats(r) && (forall n :: n in r <==> n in out)
    ensures forall n :: n in r ==> n in s.names
    ensures Partitioned(s, r, k)
  {
    hide OneCurrent, InsertionSort;
    SortAscends(s, now, out);
    r := InsertionSort(s, out);
  }

  /** The listings, cut to the limit by a partial sort and then sorted, are the most senior of
      them all in order. */
  method RankedDirectory(s: Registry, now: int) returns (out: seq<Name>)
    requires OneCurrent(s.names)
    ensures IsRanking(s, now, out)
  {
    hide Listed, OneCurrent, Before, InsertionSort, Ascends, Partitioned;
    var all := Collect(s, now);
    ghost var listed := Listed(s, now);
    CountsMatch(all, listed);
    out := all;
    if |out| > MAX_DIRECTORY_LISTINGS {
      var most := SelectSmallest(s, now, out, MAX_DIRECTORY_LISTINGS);
      out := most[..MAX_DIRECTORY_LISTINGS];
      CutLeavesSmallest(s, now, most, MAX_DIRECTORY_LISTINGS);
    }
    SortAscends(s, now, out);
    out := InsertionSort(s, out);
  }

  lemma CutLeavesSmallest(s: Registry, now: int, most: seq<Name>, k: nat)
    requires OneCurrent(s.names) && NoRepeats(most) && k <= |most| && (forall n :: n in most <==> n in Listed(s, now))
    requires Partitioned(s, most, k)
    ensures NoRepeats(most[..k]) && (forall n :: n in most[..k] ==> n in Listed(s, now))
    ensures forall n, m :: n in most[..k] && m in Listed(s, now) && m !in most[..k] ==> Before(s, n, m)
  {
    hide Listed, OneCurrent, Before;
    assert forall n :: n in most[..k] ==> n in most;
    forall n, m | n in most[..k] && m in Listed(s, now) && m !in most[..k] ensures Before(s, n, m) {
      var i :| 0 <= i < k && most[..k][i] == n;
      var j :| 0 <= j < |most| && most[j] == m;
      KeysDiffer(s, now, n, m);
    }
  }

  /** The listings in whatever order the records come. */
  method Collect(s: Registry, now: int) returns (out: seq<Name>)
    ensures NoRepeats(out) && forall n :: n in out <==> n in Listed(s, now)
  {
    out := [];
    var todo := s.names.Keys;
    while todo != {}
      invariant todo <= s.names.Keys && NoRepeats(out)
      invariant forall n :: n in out <==> n in Listed(s, now) && n !in todo
      decreases |todo|
    {
      var n :| n in todo;
      if IsListed(s, now, n) { out := out + [n]; }
      todo := todo - {n};
    }
  }

  lemma {:induction false} CountsMatch(out: seq<Name>, listed: set<Name>)
    requires NoRepeats(out) && forall n :: n in out <==> n in listed
    ensures |out| == |listed|
  {
    if out == [] {
      assert listed == {};
    } else {
      var init, last := out[..|out| - 1], out[|out| - 1];
      assert forall n :: n in out <==> n in init || n == last;
      CountsMatch(init, listed - {last});
    }
  }

  /** Who may be found: the room's current name, not private, in a room not deleted, refreshed within
      the week. Everyone ranked is; and everyone who is is ranked, unless as many more senior ones
      already fill the ranking. */
  lemma RankedIff(s: Registry, now: int, out: seq<Name>, n: Name)
    requires IsRanking(s, now, out)
    ensures var findable := && n in s.names && !s.names[n].private && !s.names[n].deleted && s.names[n].retiredAt == 0
                            && s.names[n].room !in s.deleted && now - s.names[n].refreshedAt <= 7 * 24 * 60 * 60;
            && (n in out ==> findable)
            && (findable && n !in out ==> |out| == MAX_DIRECTORY_LISTINGS && forall m :: m in out ==> Before(s, m, n))
  {
    if IsListed(s, now, n) && n !in out {
      assert n in Listed(s, now);
      if |Listed(s, now)| <= MAX_DIRECTORY_LISTINGS { ListedIsRanked(s, now, out, n); }
    }
  }

  function ClaimedAt(r: Record): nat { if r.createdAt < 0 then 0 else r.createdAt }

  /** The one first claimed earlier comes first, and of two claimed in one second the lower room. */
  lemma SeniorFirst(s: Registry, now: int, out: seq<Name>, i: nat, j: nat)
    requires IsRanking(s, now, out) && i < j < |out|
    ensures var a, b := s.names[out[i]], s.names[out[j]];
            ClaimedAt(a) < ClaimedAt(b) || (ClaimedAt(a) == ClaimedAt(b) && a.room < b.room)
  {
    assert Before(s, out[i], out[j]);
  }

  /** A ranking is the front of all the listings in order. */
  lemma {:induction false} RankingIsFront(s: Registry, now: int, out: seq<Name>, full: seq<Name>, k: nat)
    requires IsRanking(s, now, out) && Ascends(s, full) && (forall n :: n in full <==> n in Listed(s, now))
    requires k <= |out|
    ensures k <= |full| && out[..k] == full[..k]
  {
    if k > 0 {
      hide Listed, Before;
      RankingIsFront(s, now, out, full, k - 1);
      SamePlace(s, now, out, full, k - 1);
      assert out[..k] == out[..k - 1] + [out[k - 1]] && full[..k] == full[..k - 1] + [full[k - 1]];
    }
  }

  lemma SamePlace(s: Registry, now: int, out: seq<Name>, full: seq<Name>, i: nat)
    requires IsRanking(s, now, out) && Ascends(s, full) && (forall n :: n in full <==> n in Listed(s, now))
    requires i < |out| && i <= |full| && out[..i] == full[..i]
    ensures i < |full| && out[i] == full[i]
  {
    hide Listed;
    assert out[i] in out;
    var j :| 0 <= j < |full| && full[j] == out[i];
    assert forall p :: 0 <= p < i ==> full[p] == out[p] && Before(s, out[p], out[i]);
    assert j >= i;
    if full[i] in out {
      var p :| 0 <= p < |out| && out[p] == full[i];
      assert p < i ==> Before(s, full[p], full[i]);
      assert p > i ==> Before(s, out[i], out[p]);
    }
    assert j > i ==> Before(s, full[i], full[j]);
  }

  // ---------------------------------------------------------------- pages

  datatype Page = Page(keys: seq<Cursor>, next: Option<Cursor>)

  /** How many of the ranked keys are at or before the cursor. */
  function StartAfter(keys: seq<Cursor>, cursor: Option<Cursor>): (i: nat)
    ensures i <= |keys|
    ensures cursor.None? ==> i == 0
    ensures forall j :: 0 <= j < i ==> cursor.Some? && !Less(cursor.value, keys[j])
    ensures i < |keys| && cursor.Some? ==> Less(cursor.value, keys[i])
  {
    if keys == [] || cursor.None? || Less(cursor.value, keys[0]) then 0 else 1 + StartAfter(keys[1..], cursor)
  }

  function PageAt(keys: seq<Cursor>, cursor: Option<Cursor>, limit: nat): Page {
    var start := StartAfter(keys, cursor);
    var end := AtMost(start + (if limit == 0 then 1 else limit), |keys|);
    Page(keys[start..end], if end < |keys| then Some(keys[end - 1]) else None)
  }

  ghost predicate IsPast(cursor: Option<Cursor>, k: Cursor) { cursor.None? || Less(cursor.value, k) }

  lemma PastIff(keys: seq<Cursor>, cursor: Option<Cursor>, i: nat)
    requires Rising(keys) && i < |keys|
    ensures IsPast(cursor, keys[i]) <==> i >= StartAfter(keys, cursor)
  {
    hide StartAfter;
    var start := StartAfter(keys, cursor);
    assert i > start ==> Less(keys[start], keys[i]);
  }

  lemma UpToIff(keys: seq<Cursor>, end: nat, i: nat)
    requires Rising(keys) && 0 < end <= |keys| && i < |keys|
    ensures !Less(keys[end - 1], keys[i]) <==> i < end
  {
    assert i < end - 1 ==> Less(keys[i], keys[end - 1]);
    assert i > end - 1 ==> Less(keys[end - 1], keys[i]);
  }

  lemma OnlyAt(keys: seq<Cursor>, i: nat)
    requires Rising(keys) && i < |keys|
    ensures forall m :: 0 <= m < |keys| && keys[m] == keys[i] ==> m == i
  {
    assert forall m :: 0 <= m < i ==> Less(keys[m], keys[i]);
    assert forall m :: i < m < |keys| ==> Less(keys[i], keys[m]);
  }

  lemma SliceRises(keys: seq<Cursor>, start: nat, end: nat)
    requires Rising(keys) && start <= end <= |keys|
    ensures Rising(keys[start..end])
  {
  }

  lemma SliceIff(keys: seq<Cursor>, start: nat, end: nat, i: nat)
    requires Rising(keys) && start <= end <= |keys| && i < |keys|
    ensures keys[i] in keys[start..end] <==> start <= i < end
  {
    OnlyAt(keys, i);
    if keys[i] in keys[start..end] {
      var j :| 0 <= j < end - start && keys[start..end][j] == keys[i];
      assert keys[start + j] == keys[i];
    }
    if start <= i < end { assert keys[start..end][i - start] == keys[i]; }
  }

  ghost predicate Serves(p: Page, keys: seq<Cursor>, cursor: Option<Cursor>, k: Cursor) {
    k in keys && IsPast(cursor, k) && (p.next.Some? ==> !Less(p.next.value, k))
  }

  lemma PageHas(keys: seq<Cursor>, cursor: Option<Cursor>, limit: nat, k: Cursor)
    requires Rising(keys)
    ensures k in PageAt(keys, cursor, limit).keys <==> Serves(PageAt(keys, cursor, limit), keys, cursor, k)
  {
    hide StartAfter, IsPast, Less, Rising;
    var start := StartAfter(keys, cursor);
    var end := AtMost(start + (if limit == 0 then 1 else limit), |keys|);
    assert forall x :: x in keys[start..end] ==> x in keys;
    if k in keys {
      var i :| 0 <= i < |keys| && keys[i] == k;
      PastIff(keys, cursor, i);
      SliceIff(keys, start, end, i);
      if end < |keys| { UpToIff(keys, end, i); }
    }
  }

  /** A page serves exactly the keys past its cursor up to its last, and names that last key
      as the next cursor unless no key is left. */
  lemma PageServes(keys: seq<Cursor>, cursor: Option<Cursor>, limit: nat)
    requires Rising(keys)
    ensures var p := PageAt(keys, cursor, limit);
            && Rising(p.keys) && |p.keys| <= (if limit == 0 then 1 else limit)
            && (forall k :: k in p.keys <==> Serves(p, keys, cursor, k))
            && (p.next.Some? ==> IsPast(cursor, p.next.value) && p.next.value in p.keys)
  {
    hide StartAfter, IsPast, Less, Rising, Serves;
    var start := StartAfter(keys, cursor);
    var end := AtMost(start + (if limit == 0 then 1 else limit), |keys|);
    var p := PageAt(keys, cursor, limit);
    SliceRises(keys, start, end);
    if end < |keys| {
      PastIff(keys, cursor, end - 1);
      SliceIff(keys, start, end, end - 1);
    }
    hide PageAt;
    forall k ensures k in p.keys <==> Serves(p, keys, cursor, k) { PageHas(keys, cursor, limit, k); }
  }

  // ---------------------------------------------------------------- walks

  /** One request of a walk: the ranking it finds and how many it asks for. */
  datatype Request = Request(keys: seq<Cursor>, limit: nat)

  ghost predicate AllRising(walk: seq<Request>) { forall i :: 0 <= i < |walk| ==> Rising(walk[i].keys) }

  /** The pages of a client that follows `next`, until there is none. */
  function Pages(walk: seq<Request>, cursor: Option<Cursor>): seq<Page> {
    if walk == [] then []
    else
      var p := PageAt(walk[0].keys, cursor, walk[0].limit);
      [p] + (if p.next.Some? then Pages(walk[1..], p.next) else [])
  }

  function Served(pages: seq<Page>): seq<Cursor> { if pages == [] then [] else pages[0].keys + Served(pages[1..]) }

  lemma {:induction false} ServedPast(walk: seq<Request>, cursor: Option<Cursor>)
    requires AllRising(walk)
    ensures Rising(Served(Pages(walk, cursor)))
    ensures forall k :: k in Served(Pages(walk, cursor)) ==> IsPast(cursor, k)
  {
    if walk != [] {
      hide PageAt;
      var p := PageAt(walk[0].keys, cursor, walk[0].limit);
      PageServes(walk[0].keys, cursor, walk[0].limit);
      if p.next.Some? {
        ServedPast(walk[1..], p.next);
        var rest := Served(Pages(walk[1..], p.next));
        assert Pages(walk, cursor)[1..] == Pages(walk[1..], p.next);
        assert forall i, j :: 0 <= i < |p.keys| && 0 <= j < |rest| ==> Less(p.keys[i], rest[j]) by {
          forall i, j | 0 <= i < |p.keys| && 0 <= j < |rest| ensures Less(p.keys[i], rest[j]) {
            assert rest[j] in rest && p.keys[i] in p.keys;
          }
        }
      } else {
        assert Served(Pages(walk, cursor)) == p.keys;
      }
    }
  }

  /** A walk that came to its end has served every key past its cursor that stayed ranked. */
  lemma {:induction false} FinishedFrom(walk: seq<Request>, cursor: Option<Cursor>, k: Cursor)
    requires AllRising(walk) && IsPast(cursor, k)
    requires forall i :: 0 <= i < |walk| ==> k in walk[i].keys
    requires var pages := Pages(walk, cursor); pages != [] && pages[|pages| - 1].next.None?
    ensures k in Served(Pages(walk, cursor))
  {
    hide PageAt;
    var p := PageAt(walk[0].keys, cursor, walk[0].limit);
    PageServes(walk[0].keys, cursor, walk[0].limit);
    assert k in walk[0].keys;
    var pages := Pages(walk, cursor);
    if p.next.Some? {
      assert pages[1..] == Pages(walk[1..], p.next);
      if k !in p.keys { FinishedFrom(walk[1..], p.next, k); }
    }
  }

  // ---------------------------------------------------------------- walks over rankings

  /** A page served from the registry of the moment: its ranking, and how many were asked for. */
  datatype Visit = Visit(s: Registry, now: int, ranking: seq<Name>, limit: nat)

  ghost predicate AllRanked(visits: seq<Visit>) {
    forall i :: 0 <= i < |visits| ==> IsRanking(visits[i].s, visits[i].now, visits[i].ranking)
  }

  function KeysOf(s: Registry, ranking: seq<Name>): seq<Cursor>
    requires forall n :: n in ranking ==> n in s.names
  {
    seq(|ranking|, i requires 0 <= i < |ranking| => KeyOf(s.names[ranking[i]]))
  }

  ghost function Requests(visits: seq<Visit>): (walk: seq<Request>)
    requires AllRanked(visits)
  {
    seq(|visits|, i requires 0 <= i < |visits| =>
      Request(KeysOf(visits[i].s, visits[i].ranking), visits[i].limit))
  }

  lemma RankingRises(s: Registry, now: int, ranking: seq<Name>)
    requires IsRanking(s, now, ranking)
    ensures Rising(KeysOf(s, ranking))
  {
    forall i, j | 0 <= i < j < |ranking| ensures Less(KeyOf(s.names[ranking[i]]), KeyOf(s.names[ranking[j]])) {
      assert Before(s, ranking[i], ranking[j]);
    }
  }

  lemma RequestsRise(visits: seq<Visit>)
    requires AllRanked(visits)
    ensures AllRising(Requests(visits))
  {
    hide IsRanking, KeysOf, Rising;
    forall i | 0 <= i < |visits| ensures Rising(Requests(visits)[i].keys) {
      RankingRises(visits[i].s, visits[i].now, visits[i].ranking);
    }
  }

  /** However the registry changes between pages, a walk from the start serves its keys in order
      and none twice. */
  lemma NeverServedTwice(visits: seq<Visit>)
    requires AllRanked(visits)
    ensures Rising(Served(Pages(Requests(visits), None)))
  {
    RequestsRise(visits);
    ServedPast(Requests(visits), None);
  }

  /** While the listings are within the limit, none is left out of the ranking. */
  lemma ListedIsRanked(s: Registry, now: int, ranking: seq<Name>, n: Name)
    requires IsRanking(s, now, ranking) && |Listed(s, now)| <= MAX_DIRECTORY_LISTINGS && n in Listed(s, now)
    ensures n in ranking
  {
    hide Listed;
    forall i, j | 0 <= i < j < |ranking| ensures ranking[i] != ranking[j] {
      assert Before(s, ranking[i], ranking[j]);
    }
    var ranked := set m | m in ranking;
    CountsMatch(ranking, ranked);
    if n !in ranked { SubsetSize(ranked + {n}, Listed(s, now)); }
  }

  /** The registry of the visit lists `n` under the key `k`, and the limit cuts nothing off. */
  ghost predicate Lists(v: Visit, n: Name, k: Cursor) {
    && n in Listed(v.s, v.now) && KeyOf(v.s.names[n]) == k
    && |Listed(v.s, v.now)| <= MAX_DIRECTORY_LISTINGS
  }

  lemma ListedHasKey(v: Visit, n: Name, k: Cursor)
    requires IsRanking(v.s, v.now, v.ranking) && Lists(v, n, k)
    ensures k in KeysOf(v.s, v.ranking)
  {
    hide Listed;
    ListedIsRanked(v.s, v.now, v.ranking, n);
    var i :| 0 <= i < |v.ranking| && v.ranking[i] == n;
    assert KeysOf(v.s, v.ranking)[i] == k;
  }

  /** A room ranked under one key at every page of a finished walk was served. */
  lemma FinishedWalkIsComplete(visits: seq<Visit>, k: Cursor)
    requires AllRanked(visits) && forall v :: v in visits ==> k in KeysOf(v.s, v.ranking)
    requires var pages := Pages(Requests(visits), None); pages != [] && pages[|pages| - 1].next.None?
    ensures k in Served(Pages(Requests(visits), None))
  {
    RequestsRise(visits);
    FinishedFrom(Requests(visits), None, k);
  }

  /** A finished walk has served every room that stayed listed, while no more are listed than rank. */
  lemma ListedThroughoutIsServed(visits: seq<Visit>, n: Name, k: Cursor)
    requires AllRanked(visits) && forall v :: v in visits ==> Lists(v, n, k)
    requires var pages := Pages(Requests(visits), None); pages != [] && pages[|pages| - 1].next.None?
    ensures k in Served(Pages(Requests(visits), None))
  {
    hide Lists, KeysOf, Listed, Before;
    forall v | v in visits ensures k in KeysOf(v.s, v.ranking) { ListedHasKey(v, n, k); }
    FinishedWalkIsComplete(visits, k);
  }
}
