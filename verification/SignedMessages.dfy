/**
 The byte strings clients sign, one layout per operation: a protocol domain, an operation
 code, then the operation's fields. No two requests are signed over the same bytes.
 */
module SignedMessages {
  import opened Int64
  import opened Text

  type Bytes = seq<Byte>
  type Bytes4 = s: Bytes | |s| == 4 witness seq(4, _ => 0)
  type Bytes16 = s: Bytes | |s| == 16 witness seq(16, _ => 0)
  type Bytes32 = s: Bytes | |s| == 32 witness seq(32, _ => 0)
  /** Text whose length fits the four bytes counting it. */
  type Counted = s: Bytes | |s| < 0x1_0000_0000
  type u16 = x: nat | x < 0x1_0000
  type u32 = x: nat | x < 0x1_0000_0000

  datatype Ip = V4(four: Bytes4) | V6(sixteen: Bytes16)

  /** Operations of protocol version 1. */
  datatype Request =
    | Register(id: Bytes32, port: u16, ip4: Bytes4, key: Bytes32, ts: i64)
    | Unregister(id: Bytes32, ts: i64)
    | TicketAccept(identity: Bytes32, ticket: Bytes32, nonce: Bytes16, ts: i64)
    | TicketStatus(identity: Bytes32, ticket: Bytes32, nonce: Bytes16, ts: i64)
    | CapabilityRegister(capability: Bytes32, epoch: i64, port: u16, ip4: Bytes4, key: Bytes32, peer: Bytes32, ts: i64)
    | CapabilityLookup(capability: Bytes32, epoch: i64, requester: Bytes32, key: Bytes32, nonce: Bytes16, ts: i64)
    | MailboxOffer(initiator: Bytes32, responder: Bytes32, capability: Bytes32, epoch: i64, ticket: Bytes32,
                   envelope: Counted, nonce: Bytes16, ts: i64)
    | MailboxPoll(responder: Bytes32, nonce: Bytes16, ts: i64)
    | PunchRegister(from: Bytes32, target: Bytes32, capability: Bytes32, epoch: i64, port: u16, natType: Byte,
                    nonce: Bytes16, ts: i64)
    | PunchPoll(target: Bytes32, nonce: Bytes16, ts: i64)
    | PunchAck(target: Bytes32, capability: Bytes32, epoch: i64, punch: Bytes32, nonce: Bytes16, ts: i64)

  /** Presence operations of protocol version 4. */
  datatype PeerRequest =
    | IdentityLookup(target: Bytes32, requester: Bytes32, key: Bytes32, nonce: Bytes16, ts: i64)
    | CapabilityRegister4(capability: Bytes32, epoch: i64, port: u16, ip: Ip, key: Bytes32, peer: Bytes32, ts: i64)
    | CapabilityLookup4(capability: Bytes32, epoch: i64, requester: Bytes32, key: Bytes32, nonce: Bytes16, ts: i64)
    | PunchRegister4(from: Bytes32, target: Bytes32, capability: Bytes32, epoch: i64, port: u16, ip: Ip, natType: Byte,
                     nonce: Bytes16, ts: i64)
    | PunchPoll4(target: Bytes32, nonce: Bytes16, ts: i64)
    | PunchAck4(target: Bytes32, capability: Bytes32, epoch: i64, punch: Bytes32, nonce: Bytes16, ts: i64)

  /** Channel operations of protocol version 4. */
  datatype ChannelRequest =
    | Username(key: Bytes32, name: Bytes, ts: i64)
    | Name(channel: Bytes16, key: Bytes32, name: Bytes, private: bool, ts: i64)
    | NameDisplay(channel: Bytes16, key: Bytes32, normalized: Counted, display: Counted, private: bool, ts: i64)
    | Rename(channel: Bytes16, key: Bytes32, normalized: Counted, display: Counted, private: bool, ts: i64)
    | Delete(channel: Bytes16, key: Bytes32, ts: i64)
    | Nominee(channel: Bytes16, key: Bytes32, nominee: Bytes32, days: u32, ts: i64)
    | Handover(oldChannel: Bytes16, newChannel: Bytes16, newKey: Bytes32, signer: Bytes32, ts: i64)

  datatype Message = One(request: Request) | Peer(peer: PeerRequest) | Channel(channel: ChannelRequest)

  // ---------------------------------------------------------------- fields as bytes

  function Pow256(k: nat): nat { if k == 0 then 1 else 256 * Pow256(k - 1) }

  /** Little endian. */
  function LeBytes(v: nat, width: nat): (r: Bytes)
    ensures |r| == width
  {
    if width == 0 then [] else [v % 256] + LeBytes(v / 256, width - 1)
  }

  function FromLe(s: Bytes): nat { if s == [] then 0 else s[0] + 256 * FromLe(s[1..]) }

  lemma {:induction false} LeRoundTrip(v: nat, width: nat)
    requires v < Pow256(width)
    ensures FromLe(LeBytes(v, width)) == v
  {
    if width > 0 {
      LeRoundTrip(v / 256, width - 1);
      assert LeBytes(v, width)[1..] == LeBytes(v / 256, width - 1);
    }
  }

  function TwosComplement(x: i64): nat { if x < 0 then x + 0x1_0000_0000_0000_0000 else x }

  datatype Part =
    | Raw(bytes: Bytes)
    | Le2(value16: u16)
    | Le4(value32: u32)
    | Le8(value64: i64)
    | Address(ip: Ip)
    /** A length in four bytes, then as many. */
    | Prefixed(text: Counted)
    /** Neither counted nor ended; at most one in a message, with fields of known size behind it. */
    | Bare(name: Bytes)

  function IpBytes(ip: Ip): Bytes { if ip.V4? then [4] + ip.four else [6] + ip.sixteen }

  function PartBytes(p: Part): Bytes {
    match p
    case Raw(bytes) => bytes
    case Le2(value) => LeBytes(value, 2)
    case Le4(value) => LeBytes(value, 4)
    case Le8(value) => LeBytes(TwosComplement(value), 8)
    case Address(ip) => IpBytes(ip)
    case Prefixed(text) => LeBytes(|text|, 4) + text
    case Bare(name) => name
  }

  function Flat(ps: seq<Part>): Bytes { if ps == [] then [] else PartBytes(ps[0]) + Flat(ps[1..]) }

  // ---------------------------------------------------------------- the layouts

  function Flag(b: bool): Part { Raw([if b then 1 else 0]) }

  /** "ember-rdv-v1" or "ember-rdv-v4". */
  function Domain(v4: bool): (r: Bytes)
    ensures |r| == 12
  {
    [101, 109, 98, 101, 114, 45, 114, 100, 118, 45, 118] + [if v4 then 52 else 49]
  }

  function RequestOp(m: Request): Byte {
    match m
    case Register(_, _, _, _, _) => 0x01
    case Unregister(_, _) => 0x02
    case TicketAccept(_, _, _, _) => 0x09
    case TicketStatus(_, _, _, _) => 0x0a
    case CapabilityRegister(_, _, _, _, _, _, _) => 0x0c
    case CapabilityLookup(_, _, _, _, _, _) => 0x0d
    case MailboxOffer(_, _, _, _, _, _, _, _) => 0x0e
    case MailboxPoll(_, _, _) => 0x0f
    case PunchRegister(_, _, _, _, _, _, _, _) => 0x10
    case PunchPoll(_, _, _) => 0x11
    case PunchAck(_, _, _, _, _, _) => 0x12
  }

  function PeerOp(m: PeerRequest): Byte {
    match m
    case IdentityLookup(_, _, _, _, _) => 0x20
    case CapabilityRegister4(_, _, _, _, _, _, _) => 0x21
    case CapabilityLookup4(_, _, _, _, _, _) => 0x22
    case PunchRegister4(_, _, _, _, _, _, _, _, _) => 0x23
    case PunchPoll4(_, _, _) => 0x24
    case PunchAck4(_, _, _, _, _, _) => 0x25
  }

  function ChannelOp(m: ChannelRequest): Byte {
    match m
    case Username(_, _, _) => 0x26
    case Name(_, _, _, _, _) => 0x27
    case Delete(_, _, _) => 0x28
    case Nominee(_, _, _, _, _) => 0x29
    case Handover(_, _, _, _, _) => 0x2a
    case NameDisplay(_, _, _, _, _, _) => 0x2b
    case Rename(_, _, _, _, _, _) => 0x2c
  }

  function OpCode(m: Message): Byte {
    match m
    case One(request) => RequestOp(request)
    case Peer(peer) => PeerOp(peer)
    case Channel(channel) => ChannelOp(channel)
  }

  function RequestParts(m: Request): seq<Part> {
    match m
    case Register(id, port, ip4, key, ts) => [Raw(id), Le2(port), Raw(ip4), Raw(key), Le8(ts)]
    case Unregister(id, ts) => [Raw(id), Le8(ts)]
    case TicketAccept(identity, ticket, nonce, ts) => [Raw(identity), Raw(ticket), Raw(nonce), Le8(ts)]
    case TicketStatus(identity, ticket, nonce, ts) => [Raw(identity), Raw(ticket), Raw(nonce), Le8(ts)]
    case CapabilityRegister(capability, epoch, port, ip4, key, peer, ts) =>
      [Raw(capability), Le8(epoch), Le2(port), Raw(ip4), Raw(key), Raw(peer), Le8(ts)]
    case CapabilityLookup(capability, epoch, requester, key, nonce, ts) =>
      [Raw(capability), Le8(epoch), Raw(requester), Raw(key), Raw(nonce), Le8(ts)]
    case MailboxOffer(initiator, responder, capability, epoch, ticket, envelope, nonce, ts) =>
      [Raw(initiator), Raw(responder), Raw(capability), Le8(epoch), Raw(ticket), Prefixed(envelope), Raw(nonce),
       Le8(ts)]
    case MailboxPoll(responder, nonce, ts) => [Raw(responder), Raw(nonce), Le8(ts)]
    case PunchRegister(from, target, capability, epoch, port, natType, nonce, ts) =>
      [Raw(from), Raw(target), Raw(capability), Le8(epoch), Le2(port), Raw([natType]), Raw(nonce), Le8(ts)]
    case PunchPoll(target, nonce, ts) => [Raw(target), Raw(nonce), Le8(ts)]
    case PunchAck(target, capability, epoch, punch, nonce, ts) =>
      [Raw(target), Raw(capability), Le8(epoch), Raw(punch), Raw(nonce), Le8(ts)]
  }

  function PeerParts(m: PeerRequest): seq<Part> {
    match m
    case IdentityLookup(target, requester, key, nonce, ts) =>
      [Raw(target), Raw(requester), Raw(key), Raw(nonce), Le8(ts)]
    case CapabilityRegister4(capability, epoch, port, ip, key, peer, ts) =>
      [Raw(capability), Le8(epoch), Le2(port), Address(ip), Raw(key), Raw(peer), Le8(ts)]
    case CapabilityLookup4(capability, epoch, requester, key, nonce, ts) =>
      [Raw(capability), Le8(epoch), Raw(requester), Raw(key), Raw(nonce), Le8(ts)]
    case PunchRegister4(from, target, capability, epoch, port, ip, natType, nonce, ts) =>
      [Raw(from), Raw(target), Raw(capability), Le8(epoch), Le2(port), Address(ip), Raw([natType]), Raw(nonce), Le8(ts)]
    case PunchPoll4(target, nonce, ts) => [Raw(target), Raw(nonce), Le8(ts)]
    case PunchAck4(target, capability, epoch, punch, nonce, ts) =>
      [Raw(target), Raw(capability), Le8(epoch), Raw(punch), Raw(nonce), Le8(ts)]
  }

  function ChannelParts(m: ChannelRequest): seq<Part> {
    match m
    case Username(key, name, ts) => [Raw(key), Bare(name), Le8(ts)]
    case Name(channel, key, name, private, ts) => [Raw(channel), Raw(key), Bare(name), Flag(private), Le8(ts)]
    case NameDisplay(channel, key, normalized, display, private, ts) =>
      [Raw(channel), Raw(key), Prefixed(normalized), Prefixed(display), Flag(private), Le8(ts)]
    case Rename(channel, key, normalized, display, private, ts) =>
      [Raw(channel), Raw(key), Prefixed(normalized), Prefixed(display), Flag(private), Le8(ts)]
    case Delete(channel, key, ts) => [Raw(channel), Raw(key), Le8(ts)]
    case Nominee(channel, key, nominee, days, ts) => [Raw(channel), Raw(key), Raw(nominee), Le4(days), Le8(ts)]
    case Handover(oldChannel, newChannel, newKey, signer, ts) =>
      [Raw(oldChannel), Raw(newChannel), Raw(newKey), Raw(signer), Le8(ts)]
  }

  function Parts(m: Message): seq<Part> {
    match m
    case One(request) => RequestParts(request)
    case Peer(peer) => PeerParts(peer)
    case Channel(channel) => ChannelParts(channel)
  }

  function Encode(m: Message): Bytes { Domain(!m.One?) + [OpCode(m)] + Flat(Parts(m)) }

  /** The message as it is built, field after field onto one buffer. */
  method Build(m: Message) returns (out: Bytes)
    ensures out == Encode(m)
  {
    hide PartBytes, Parts, OpCode, Domain;
    out := Domain(!m.One?) + [OpCode(m)];
    var parts := Parts(m);
    ghost var head := out;
    assert parts[0..] == parts;
    assert out + Flat(parts) == head + Flat(parts);
    for i := 0 to |parts|
      invariant out + Flat(parts[i..]) == head + Flat(parts)
    {
      assert parts[i..][1..] == parts[i + 1..];
      assert out + (PartBytes(parts[i]) + Flat(parts[i + 1..])) == (out + PartBytes(parts[i])) + Flat(parts[i + 1..]);
      out := out + PartBytes(parts[i]);
    }
    assert parts[|parts|..] == [];
    assert out + [] == out;
  }

  // ---------------------------------------------------------------- reading fields back

  /** The kind of a part, with its size where that is fixed. */
  datatype Kind = KRaw(size: nat) | KLe2 | KLe4 | KLe8 | KAddress | KPrefixed | KBare

  function KindOf(p: Part): Kind {
    match p
    case Raw(bytes) => KRaw(|bytes|)
    case Le2(_) => KLe2
    case Le4(_) => KLe4
    case Le8(_) => KLe8
    case Address(_) => KAddress
    case Prefixed(_) => KPrefixed
    case Bare(_) => KBare
  }

  predicate Sized(p: Part) { p.Raw? || p.Le2? || p.Le4? || p.Le8? }

  ghost predicate SameKinds(ps: seq<Part>, qs: seq<Part>) {
    |ps| == |qs| && forall i :: 0 <= i < |ps| ==> KindOf(ps[i]) == KindOf(qs[i])
  }

  /** Only sized parts come behind a bare one. */
  ghost predicate Readable(ps: seq<Part>) {
    forall i, j :: 0 <= i < j < |ps| && ps[i].Bare? ==> Sized(ps[j])
  }

  lemma SplitSame(a: Bytes, b: Bytes, x: Bytes, y: Bytes)
    requires |a| == |b| && a + x == b + y
    ensures a == b && x == y
  {
    assert a == (a + x)[..|a|] == (b + y)[..|b|] == b;
    assert x == (a + x)[|a|..] == (b + y)[|b|..] == y;
  }

  lemma LeInjective(v: nat, w: nat, width: nat)
    requires v < Pow256(width) && w < Pow256(width) && LeBytes(v, width) == LeBytes(w, width)
    ensures v == w
  {
    LeRoundTrip(v, width);
    LeRoundTrip(w, width);
  }

  lemma Widths()
    ensures Pow256(2) == 0x1_0000 && Pow256(4) == 0x1_0000_0000 && Pow256(8) == 0x1_0000_0000_0000_0000
  {
    assert Pow256(4) == 256 * 256 * Pow256(2);
    assert Pow256(6) == 256 * 256 * Pow256(4);
  }

  /** A part that is not bare ends where it says. */
  lemma PartReadBack(p: Part, q: Part, x: Bytes, y: Bytes)
    requires KindOf(p) == KindOf(q) && !p.Bare?
    requires PartBytes(p) + x == PartBytes(q) + y
    ensures p == q && x == y
  {
    hide LeBytes, Pow256;
    Widths();
    match p
    case Raw(_) =>
      SplitSame(PartBytes(p), PartBytes(q), x, y);
    case Le2(value) =>
      SplitSame(PartBytes(p), PartBytes(q), x, y);
      LeInjective(value, q.value16, 2);
    case Le4(value) =>
      SplitSame(PartBytes(p), PartBytes(q), x, y);
      LeInjective(value, q.value32, 4);
    case Le8(value) =>
      SplitSame(PartBytes(p), PartBytes(q), x, y);
      LeInjective(TwosComplement(value), TwosComplement(q.value64), 8);
    case Address(ip) =>
      AddressReadBack(ip, q.ip, x, y);
    case Prefixed(text) =>
      PrefixedReadBack(text, q.text, x, y);
  }

  lemma AddressReadBack(a: Ip, b: Ip, x: Bytes, y: Bytes)
    requires IpBytes(a) + x == IpBytes(b) + y
    ensures a == b && x == y
  {
    assert (IpBytes(a) + x)[0] == (IpBytes(b) + y)[0];
    SplitSame(IpBytes(a), IpBytes(b), x, y);
    if a.V4? { SplitSame([4], [4], a.four, b.four); } else { SplitSame([6], [6], a.sixteen, b.sixteen); }
  }

  lemma Assoc(a: Bytes, b: Bytes, c: Bytes)
    ensures (a + b) + c == a + (b + c)
  {
  }

  lemma PrefixedReadBack(s: Counted, t: Counted, x: Bytes, y: Bytes)
    requires (LeBytes(|s|, 4) + s) + x == (LeBytes(|t|, 4) + t) + y
    ensures s == t && x == y
  {
    hide LeBytes, Pow256;
    Widths();
    Assoc(LeBytes(|s|, 4), s, x);
    Assoc(LeBytes(|t|, 4), t, y);
    SplitSame(LeBytes(|s|, 4), LeBytes(|t|, 4), s + x, t + y);
    LeInjective(|s|, |t|, 4);
    SplitSame(s, t, x, y);
  }

  lemma {:induction false} SizedLength(ps: seq<Part>, qs: seq<Part>)
    requires SameKinds(ps, qs) && forall i :: 0 <= i < |ps| ==> Sized(ps[i])
    ensures |Flat(ps)| == |Flat(qs)|
  {
    if ps != [] {
      assert KindOf(ps[0]) == KindOf(qs[0]);
      SizedLength(ps[1..], qs[1..]);
    }
  }

  lemma {:induction false} FlatReadBack(ps: seq<Part>, qs: seq<Part>)
    requires SameKinds(ps, qs) && Readable(ps) && Readable(qs) && Flat(ps) == Flat(qs)
    ensures ps == qs
  {
    if ps != [] {
      hide PartBytes;
      var p, q := ps[0], qs[0];
      assert KindOf(p) == KindOf(q);
      if p.Bare? {
        SizedLength(ps[1..], qs[1..]);
        SplitSame(PartBytes(p), PartBytes(q), Flat(ps[1..]), Flat(qs[1..]));
        BareSame(p, q);
      } else {
        PartReadBack(p, q, Flat(ps[1..]), Flat(qs[1..]));
      }
      TailReadable(ps);
      TailReadable(qs);
      FlatReadBack(ps[1..], qs[1..]);
      assert ps == [p] + ps[1..] && qs == [q] + qs[1..];
    }
  }

  lemma BareSame(p: Part, q: Part)
    requires p.Bare? && q.Bare? && PartBytes(p) == PartBytes(q)
    ensures p == q
  {
  }

  lemma TailReadable(ps: seq<Part>)
    requires Readable(ps) && ps != []
    ensures Readable(ps[1..])
  {
    assert forall i :: 0 <= i < |ps| - 1 ==> ps[1..][i] == ps[i + 1];
  }

  // ---------------------------------------------------------------- no two messages alike

  lemma RequestReadable(m: Request)
    ensures Readable(RequestParts(m))
  {
  }

  lemma PeerReadable(m: PeerRequest)
    ensures Readable(PeerParts(m))
  {
  }

  lemma ChannelReadable(m: ChannelRequest)
    ensures Readable(ChannelParts(m))
  {
  }

  lemma AllReadable(m: Message)
    ensures Readable(Parts(m))
  {
    hide Readable, RequestParts, PeerParts, ChannelParts;
    match m
    case One(request) => RequestReadable(request);
    case Peer(peer) => PeerReadable(peer);
    case Channel(channel) => ChannelReadable(channel);
  }

  lemma EarlyKinds(a: Request, b: Request)
    requires RequestOp(a) == RequestOp(b) <= 0x0c
    ensures SameKinds(RequestParts(a), RequestParts(b))
  {
  }

  lemma LateKinds(a: Request, b: Request)
    requires RequestOp(a) == RequestOp(b) > 0x0c
    ensures SameKinds(RequestParts(a), RequestParts(b))
  {
  }

  lemma RequestKinds(a: Request, b: Request)
    requires RequestOp(a) == RequestOp(b)
    ensures SameKinds(RequestParts(a), RequestParts(b))
  {
    hide RequestOp, RequestParts, SameKinds;
    if RequestOp(a) <= 0x0c { EarlyKinds(a, b); } else { LateKinds(a, b); }
  }

  lemma RequestFields(a: Request, b: Request)
    requires RequestOp(a) == RequestOp(b) && RequestParts(a) == RequestParts(b)
    ensures a == b
  {
  }

  lemma PeerKinds(a: PeerRequest, b: PeerRequest)
    requires PeerOp(a) == PeerOp(b)
    ensures SameKinds(PeerParts(a), PeerParts(b))
    ensures PeerParts(a) == PeerParts(b) ==> a == b
  {
  }

  lemma ChannelKinds(a: ChannelRequest, b: ChannelRequest)
    requires ChannelOp(a) == ChannelOp(b)
    ensures SameKinds(ChannelParts(a), ChannelParts(b))
    ensures ChannelParts(a) == ChannelParts(b) ==> a == b
  {
  }

  /** Messages of one operation have their fields laid out alike, and are told apart by them. */
  lemma SameOpSameKinds(a: Message, b: Message)
    requires OpCode(a) == OpCode(b)
    ensures SameKinds(Parts(a), Parts(b))
    ensures Parts(a) == Parts(b) ==> a == b
  {
    hide SameKinds, RequestParts, PeerParts, ChannelParts;
    match a
    case One(request) =>
      RequestKinds(request, b.request);
      if RequestParts(request) == RequestParts(b.request) { RequestFields(request, b.request); }
    case Peer(peer) => PeerKinds(peer, b.peer);
    case Channel(channel) => ChannelKinds(channel, b.channel);
  }

  /** Two requests are signed over the same bytes only if they are of the same protocol version and
      operation with equal fields. */
  lemma EncodeInjective(a: Message, b: Message)
    requires Encode(a) == Encode(b)
    ensures a == b
  {
    hide Flat, Parts, OpCode, SameKinds, Readable, Domain;
    SplitSame(Domain(!a.One?) + [OpCode(a)], Domain(!b.One?) + [OpCode(b)], Flat(Parts(a)), Flat(Parts(b)));
    SplitSame(Domain(!a.One?), Domain(!b.One?), [OpCode(a)], [OpCode(b)]);
    assert [OpCode(a)][0] == [OpCode(b)][0];
    SameOpSameKinds(a, b);
    AllReadable(a);
    AllReadable(b);
    FlatReadBack(Parts(a), Parts(b));
  }

  // ---------------------------------------------------------------- the bytes themselves

  function Ascii(s: string): Bytes
    requires forall i :: 0 <= i < |s| ==> s[i] < 128 as char
  {
    seq(|s|, i requires 0 <= i < |s| => s[i] as int)
  }

  /** One after the other. */
  function Cat(fields: seq<Bytes>): Bytes { if fields == [] then [] else fields[0] + Cat(fields[1..]) }

  function Framed(domain: Bytes, op: Byte, fields: seq<Bytes>): Bytes { domain + [op] + Cat(fields) }

  const V1: Bytes := Ascii("ember-rdv-v1")
  const V4: Bytes := Ascii("ember-rdv-v4")

  /** Eight bytes of a signed number. */
  function Signed(x: i64): Bytes { LeBytes(TwosComplement(x), 8) }

  function Text4(s: Counted): Bytes { LeBytes(|s|, 4) + s }

  function Bit(b: bool): Bytes { [if b then 1 else 0] }

  lemma DomainIs()
    ensures Domain(false) == V1 && Domain(true) == V4
  {
  }

  lemma {:induction false} FlatIsCat(ps: seq<Part>, fields: seq<Bytes>)
    requires |ps| == |fields| && forall i :: 0 <= i < |ps| ==> PartBytes(ps[i]) == fields[i]
    ensures Flat(ps) == Cat(fields)
  {
    if ps != [] {
      hide PartBytes;
      FlatIsCat(ps[1..], fields[1..]);
    }
  }

  lemma Laid(m: Message, fields: seq<Bytes>)
    requires |Parts(m)| == |fields| && forall i :: 0 <= i < |fields| ==> PartBytes(Parts(m)[i]) == fields[i]
    ensures Encode(m) == Framed(if m.One? then V1 else V4, OpCode(m), fields)
  {
    hide Flat, Cat, Parts, PartBytes, OpCode, Domain;
    DomainIs();
    FlatIsCat(Parts(m), fields);
  }

  /** Every version 1 message: its domain, its operation code, its fields in order. */
  function RequestBytes(m: Request): Bytes {
    match m
    case Register(id, port, ip4, key, ts) =>
      Framed(V1, 0x01, [id, LeBytes(port, 2), ip4, key, Signed(ts)])
    case Unregister(id, ts) =>
      Framed(V1, 0x02, [id, Signed(ts)])
    case TicketAccept(identity, ticket, nonce, ts) =>
      Framed(V1, 0x09, [identity, ticket, nonce, Signed(ts)])
    case TicketStatus(identity, ticket, nonce, ts) =>
      Framed(V1, 0x0a, [identity, ticket, nonce, Signed(ts)])
    case CapabilityRegister(capability, epoch, port, ip4, key, peer, ts) =>
      Framed(V1, 0x0c, [capability, Signed(epoch), LeBytes(port, 2), ip4, key, peer, Signed(ts)])
    case CapabilityLookup(capability, epoch, requester, key, nonce, ts) =>
      Framed(V1, 0x0d, [capability, Signed(epoch), requester, key, nonce, Signed(ts)])
    case MailboxOffer(initiator, responder, capability, epoch, ticket, envelope, nonce, ts) =>
      Framed(V1, 0x0e, [initiator, responder, capability, Signed(epoch), ticket, Text4(envelope), nonce,
                        Signed(ts)])
    case MailboxPoll(responder, nonce, ts) =>
      Framed(V1, 0x0f, [responder, nonce, Signed(ts)])
    case PunchRegister(from, target, capability, epoch, port, natType, nonce, ts) =>
      Framed(V1, 0x10, [from, target, capability, Signed(epoch), LeBytes(port, 2), [natType],
                        nonce, Signed(ts)])
    case PunchPoll(target, nonce, ts) =>
      Framed(V1, 0x11, [target, nonce, Signed(ts)])
    case PunchAck(target, capability, epoch, punch, nonce, ts) =>
      Framed(V1, 0x12, [target, capability, Signed(epoch), punch, nonce, Signed(ts)])
  }

  lemma EarlyLayout(m: Request)
    requires RequestOp(m) <= 0x0c
    ensures Encode(One(m)) == RequestBytes(m)
  {
    hide Encode, Cat, LeBytes, Framed;
    match m
    case Register(id, port, ip4, key, ts) =>
      Laid(One(m), [id, LeBytes(port, 2), ip4, key, Signed(ts)]);
    case Unregister(id, ts) =>
      Laid(One(m), [id, Signed(ts)]);
    case TicketAccept(identity, ticket, nonce, ts) =>
      Laid(One(m), [identity, ticket, nonce, Signed(ts)]);
    case TicketStatus(identity, ticket, nonce, ts) =>
      Laid(One(m), [identity, ticket, nonce, Signed(ts)]);
    case CapabilityRegister(capability, epoch, port, ip4, key, peer, ts) =>
      Laid(One(m), [capability, Signed(epoch), LeBytes(port, 2), ip4, key, peer, Signed(ts)]);
  }

  lemma LateLayout(m: Request)
    requires RequestOp(m) > 0x0c
    ensures Encode(One(m)) == RequestBytes(m)
  {
    hide Encode, Cat, LeBytes, Framed;
    match m
    case CapabilityLookup(capability, epoch, requester, key, nonce, ts) =>
      Laid(One(m), [capability, Signed(epoch), requester, key, nonce, Signed(ts)]);
    case MailboxOffer(initiator, responder, capability, epoch, ticket, envelope, nonce, ts) =>
      Laid(One(m), [initiator, responder, capability, Signed(epoch), ticket, Text4(envelope), nonce,
                    Signed(ts)]);
    case MailboxPoll(responder, nonce, ts) =>
      Laid(One(m), [responder, nonce, Signed(ts)]);
    case PunchRegister(from, target, capability, epoch, port, natType, nonce, ts) =>
      Laid(One(m), [from, target, capability, Signed(epoch), LeBytes(port, 2), [natType], nonce, Signed(ts)]);
    case PunchPoll(target, nonce, ts) =>
      Laid(One(m), [target, nonce, Signed(ts)]);
    case PunchAck(target, capability, epoch, punch, nonce, ts) =>
      Laid(One(m), [target, capability, Signed(epoch), punch, nonce, Signed(ts)]);
  }

  /** Every version 1 message is signed over exactly these bytes. */
  lemma RequestLayout(m: Request)
    ensures Encode(One(m)) == RequestBytes(m)
  {
    hide Encode, RequestBytes, RequestOp;
    if RequestOp(m) <= 0x0c { EarlyLayout(m); } else { LateLayout(m); }
  }

  /** Every presence message of version 4. */
  function PeerBytes(m: PeerRequest): Bytes {
    match m
    case IdentityLookup(target, requester, key, nonce, ts) =>
      Framed(V4, 0x20, [target, requester, key, nonce, Signed(ts)])
    case CapabilityRegister4(capability, epoch, port, ip, key, peer, ts) =>
      Framed(V4, 0x21, [capability, Signed(epoch), LeBytes(port, 2), IpBytes(ip), key, peer, Signed(ts)])
    case CapabilityLookup4(capability, epoch, requester, key, nonce, ts) =>
      Framed(V4, 0x22, [capability, Signed(epoch), requester, key, nonce, Signed(ts)])
    case PunchRegister4(from, target, capability, epoch, port, ip, natType, nonce, ts) =>
      Framed(V4, 0x23, [from, target, capability, Signed(epoch), LeBytes(port, 2), IpBytes(ip), [natType],
                        nonce, Signed(ts)])
    case PunchPoll4(target, nonce, ts) =>
      Framed(V4, 0x24, [target, nonce, Signed(ts)])
    case PunchAck4(target, capability, epoch, punch, nonce, ts) =>
      Framed(V4, 0x25, [target, capability, Signed(epoch), punch, nonce, Signed(ts)])
  }

  lemma PeerLayout(m: PeerRequest)
    ensures Encode(Peer(m)) == PeerBytes(m)
  {
    hide Encode, Cat, LeBytes, Framed;
    match m
    case IdentityLookup(target, requester, key, nonce, ts) =>
      Laid(Peer(m), [target, requester, key, nonce, Signed(ts)]);
    case CapabilityRegister4(capability, epoch, port, ip, key, peer, ts) =>
      Laid(Peer(m), [capability, Signed(epoch), LeBytes(port, 2), IpBytes(ip), key, peer, Signed(ts)]);
    case CapabilityLookup4(capability, epoch, requester, key, nonce, ts) =>
      Laid(Peer(m), [capability, Signed(epoch), requester, key, nonce, Signed(ts)]);
    case PunchRegister4(from, target, capability, epoch, port, ip, natType, nonce, ts) =>
      Laid(Peer(m), [from, target, capability, Signed(epoch), LeBytes(port, 2), IpBytes(ip), [natType], nonce,
                     Signed(ts)]);
    case PunchPoll4(target, nonce, ts) =>
      Laid(Peer(m), [target, nonce, Signed(ts)]);
    case PunchAck4(target, capability, epoch, punch, nonce, ts) =>
      Laid(Peer(m), [target, capability, Signed(epoch), punch, nonce, Signed(ts)]);
  }

  /** Every channel message of version 4. */
  function ChannelBytes(m: ChannelRequest): Bytes {
    match m
    case Username(key, name, ts) =>
      Framed(V4, 0x26, [key, name, Signed(ts)])
    case Name(channel, key, name, private, ts) =>
      Framed(V4, 0x27, [channel, key, name, Bit(private), Signed(ts)])
    case NameDisplay(channel, key, normalized, display, private, ts) =>
      Framed(V4, 0x2b, [channel, key, Text4(normalized), Text4(display), Bit(private), Signed(ts)])
    case Rename(channel, key, normalized, display, private, ts) =>
      Framed(V4, 0x2c, [channel, key, Text4(normalized), Text4(display), Bit(private), Signed(ts)])
    case Delete(channel, key, ts) =>
      Framed(V4, 0x28, [channel, key, Signed(ts)])
    case Nominee(channel, key, nominee, days, ts) =>
      Framed(V4, 0x29, [channel, key, nominee, LeBytes(days, 4), Signed(ts)])
    case Handover(oldChannel, newChannel, newKey, signer, ts) =>
      Framed(V4, 0x2a, [oldChannel, newChannel, newKey, signer, Signed(ts)])
  }

  lemma ChannelLayout(m: ChannelRequest)
    ensures Encode(Channel(m)) == ChannelBytes(m)
  {
    hide Encode, Cat, LeBytes, Framed;
    match m
    case Username(key, name, ts) =>
      Laid(Channel(m), [key, name, Signed(ts)]);
    case Name(channel, key, name, private, ts) =>
      Laid(Channel(m), [channel, key, name, Bit(private), Signed(ts)]);
    case NameDisplay(channel, key, normalized, display, private, ts) =>
      Laid(Channel(m), [channel, key, Text4(normalized), Text4(display),
                        Bit(private), Signed(ts)]);
    case Rename(channel, key, normalized, display, private, ts) =>
      Laid(Channel(m), [channel, key, Text4(normalized), Text4(display),
                        Bit(private), Signed(ts)]);
    case Delete(channel, key, ts) =>
      Laid(Channel(m), [channel, key, Signed(ts)]);
    case Nominee(channel, key, nominee, days, ts) =>
      Laid(Channel(m), [channel, key, nominee, LeBytes(days, 4), Signed(ts)]);
    case Handover(oldChannel, newChannel, newKey, signer, ts) =>
      Laid(Channel(m), [oldChannel, newChannel, newKey, signer, Signed(ts)]);
  }
}
