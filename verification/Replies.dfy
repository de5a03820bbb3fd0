/** What parse_device makes of the replies of WG_GET_DEVICE: each field has the value of
    the last attribute that carries it, and a peer or device encoded with the attribute
    numbers of wireguard.c, in any order, is read back field by field. */
module Replies {
  import opened Options
  import opened Words
  import opened Netlink
  import opened WgDevice
  import opened Packing
  import opened ReadDevice
  import opened CoalescePeers
  import opened RoundTrip
  import opened Reassembly

  //
  // The last attribute of a type
  //

  predicate HasForm(a: Attr, typ: nat, len: nat) {
    Type(a) == typ && if len == 0 then a.payload != [] else |a.payload| == len
  }

  /** The payload of the last attribute of a type that has a given length, or where that
      is 0 any length but 0. */
  function Latest(attrs: seq<Attr>, typ: nat, len: nat): (r: Option<seq<Byte>>)
    ensures r.Some? && len > 0 ==> |r.value| == len
  {
    if attrs == [] then None
    else
      var later := Latest(attrs[1..], typ, len);
      if later.None? && HasForm(attrs[0], typ, len) then Some(attrs[0].payload) else later
  }

  /** Where there is such an attribute and all of its type are equal, their order does not matter. */
  lemma {:induction false} LatestAmong(attrs: seq<Attr>, a: Attr, len: nat)
    requires a in attrs && HasForm(a, Type(a), len)
    requires forall b :: b in attrs && Type(b) == Type(a) ==> b == a
    ensures Latest(attrs, Type(a), len) == Some(a.payload)
  {
    var rest := attrs[1..];
    if a in rest {
      LatestAmong(rest, a, len);
    } else {
      LatestNone(rest, Type(a), len);
    }
  }

  lemma {:induction false} LatestNone(attrs: seq<Attr>, typ: nat, len: nat)
    requires forall b :: b in attrs ==> Type(b) != typ
    ensures Latest(attrs, typ, len).None?
  {
    if attrs != [] {
      LatestNone(attrs[1..], typ, len);
    }
  }

  function Bytes(o: Option<seq<Byte>>, none: seq<Byte>): seq<Byte> {
    if o.Some? then o.value else none
  }

  function Number(o: Option<seq<Byte>>, none: nat): nat {
    match o
    case None => none
    case Some(b) =>
      if |b| == 2 then GetLe16(b) else if |b| == 4 then GetLe32(b) else if |b| == 8 then GetLe64(b) else 0
  }

  //
  // Every field of a peer is the last one received
  //

  /** The lists of allowed IPs among the attributes of a peer are all legal. */
  predicate ListsLegal(attrs: seq<Attr>) {
    forall a :: a in attrs && Type(a) == 9 ==> ReadIps(Walk(a.payload), []).1
  }

  lemma {:induction false} IpsFrom(attrs: seq<Attr>, acc: seq<AllowedIp>, more: seq<AllowedIp>)
    ensures var (ips, ok) := ReadIps(attrs, more); ReadIps(attrs, acc + more) == (acc + ips, ok)
    decreases |attrs|
  {
    if attrs != [] {
      hide ReadIp, Walk;
      var ip := ReadIp(Walk(attrs[0].payload), ZERO_IP);
      assert acc + more + [ip] == acc + (more + [ip]);
      IpsFrom(attrs[1..], acc, more + [ip]);
    }
  }

  /** AF_INET with a prefix of at most 32 bits, or AF_INET6 with at most 128. */
  predicate Accepted(ip: AllowedIp) {
    (ip.family == 2 && ip.cidr <= 32) || (ip.family == 10 && ip.cidr <= 128)
  }

  /** A list of allowed IPs is accepted exactly if each of them is, and then all are there. */
  lemma {:induction false} IpsAccepted(attrs: seq<Attr>, acc: seq<AllowedIp>)
    ensures var (ips, ok) := ReadIps(attrs, acc);
      (ok <==> forall k :: 0 <= k < |attrs| ==> Accepted(ReadIp(Walk(attrs[k].payload), ZERO_IP)))
      && (ok ==> |ips| == |acc| + |attrs| && acc <= ips
                 && forall k :: 0 <= k < |attrs| ==> ips[|acc| + k] == ReadIp(Walk(attrs[k].payload), ZERO_IP))
    decreases |attrs|
  {
    hide ReadIp, Walk;
    if attrs != [] {
      var ip, rest := ReadIp(Walk(attrs[0].payload), ZERO_IP), attrs[1..];
      assert ip.Legal() <==> Accepted(ip);
      hide Accepted;
      IpsAccepted(rest, acc + [ip]);
      assert forall k :: 1 <= k < |attrs| ==> attrs[k] == rest[k - 1];
      assert forall k :: 0 <= k < |rest| ==> rest[k] == attrs[k + 1];
    }
  }

  /** The fields after some attributes, in terms of those before. */
  predicate PeerIs(r: PeerInfo, p: PeerInfo, attrs: seq<Attr>) {
    r.publicKey == Bytes(Latest(attrs, 1, 32), p.publicKey)
    && r.hasPublicKey == (p.hasPublicKey || Latest(attrs, 1, 32).Some?)
    && r.presharedKey == Bytes(Latest(attrs, 2, 32), p.presharedKey)
    && r.keepalive == Number(Latest(attrs, 5, 2), p.keepalive)
    && r.lastHandshake == Bytes(Latest(attrs, 6, 16), p.lastHandshake)
    && r.rxBytes == Number(Latest(attrs, 7, 8), p.rxBytes)
    && r.txBytes == Number(Latest(attrs, 8, 8), p.txBytes)
    && r.removeMe == p.removeMe && r.replaceAllowedIps == p.replaceAllowedIps && r.hasKeepalive == p.hasKeepalive
  }

  lemma {:induction false} PeerIsMore(r: PeerInfo, q: PeerInfo, p: PeerInfo, a: Attr, rest: seq<Attr>)
    requires PeerIs(r, q, rest) && PeerIs(q, p, [a])
    ensures PeerIs(r, p, [a] + rest)
  {
    LatestCons(a, rest, 1, 32);
    LatestCons(a, rest, 2, 32);
    LatestCons(a, rest, 5, 2);
    LatestCons(a, rest, 6, 16);
    LatestCons(a, rest, 7, 8);
    LatestCons(a, rest, 8, 8);
    hide Latest;
  }

  lemma {:induction false} LatestCons(a: Attr, rest: seq<Attr>, typ: nat, len: nat)
    ensures var one, later := Latest([a], typ, len), Latest(rest, typ, len);
      Latest([a] + rest, typ, len) == if later.Some? then later else one
    ensures Latest([a], typ, len) == if HasForm(a, typ, len) then Some(a.payload) else None
  {
    assert ([a] + rest)[1..] == rest && [a][1..] == [];
  }

  predicate Known(a: Attr) {
    HasForm(a, 1, 32) || HasForm(a, 2, 32) || HasForm(a, 5, 2) || HasForm(a, 6, 16) || HasForm(a, 7, 8)
    || HasForm(a, 8, 8)
  }

  lemma FieldCases(p: PeerInfo, a: Attr)
    requires |p.endpoint| == 28
    ensures var r := if Type(a) == 9 then p else PeerField(p, a);
      (HasForm(a, 1, 32) ==> r == p.(publicKey := a.payload, hasPublicKey := true))
      && (HasForm(a, 2, 32) ==> r == p.(presharedKey := a.payload, hasPresharedKey := r.hasPresharedKey))
      && (HasForm(a, 5, 2) ==> r == p.(keepalive := GetLe16(a.payload)))
      && (HasForm(a, 6, 16) ==> r == p.(lastHandshake := a.payload))
      && (HasForm(a, 7, 8) ==> r == p.(rxBytes := GetLe64(a.payload)))
      && (HasForm(a, 8, 8) ==> r == p.(txBytes := GetLe64(a.payload)))
      && (!Known(a) ==> r == p.(endpoint := r.endpoint))
  {
    hide Type, GetLe16, GetLe64, IsZero;
  }

  /** An attribute has one type. */
  lemma OneForm(a: Attr, typ: nat, len: nat)
    requires HasForm(a, typ, len)
    ensures typ != 1 ==> !HasForm(a, 1, 32)
    ensures typ != 2 ==> !HasForm(a, 2, 32)
    ensures typ != 5 ==> !HasForm(a, 5, 2)
    ensures typ != 6 ==> !HasForm(a, 6, 16)
    ensures typ != 7 ==> !HasForm(a, 7, 8)
    ensures typ != 8 ==> !HasForm(a, 8, 8)
  {
  }

  lemma FieldSet(p: PeerInfo, a: Attr)
    requires |p.endpoint| == 28
    ensures var r := if Type(a) == 9 then p else PeerField(p, a);
      r.publicKey == (if HasForm(a, 1, 32) then a.payload else p.publicKey)
      && r.hasPublicKey == (p.hasPublicKey || HasForm(a, 1, 32))
      && r.presharedKey == (if HasForm(a, 2, 32) then a.payload else p.presharedKey)
      && r.keepalive == (if HasForm(a, 5, 2) then GetLe16(a.payload) else p.keepalive)
      && r.lastHandshake == (if HasForm(a, 6, 16) then a.payload else p.lastHandshake)
      && r.rxBytes == (if HasForm(a, 7, 8) then GetLe64(a.payload) else p.rxBytes)
      && r.txBytes == (if HasForm(a, 8, 8) then GetLe64(a.payload) else p.txBytes)
      && r.removeMe == p.removeMe && r.replaceAllowedIps == p.replaceAllowedIps && r.hasKeepalive == p.hasKeepalive
  {
    FieldCases(p, a);
    hide PeerField, Type, GetLe16, GetLe64, HasForm;
    if Known(a) {
      var typ, len :| HasForm(a, typ, len) && typ in [1, 2, 5, 6, 7, 8];
      OneForm(a, typ, len);
    }
  }

  lemma NumberOf(a: Attr, typ: nat, len: nat, none: nat)
    requires len in [2, 4, 8]
    ensures Number(if HasForm(a, typ, len) then Some(a.payload) else None, none)
         == if !HasForm(a, typ, len) then none
            else if len == 2 then GetLe16(a.payload) else if len == 4 then GetLe32(a.payload) else GetLe64(a.payload)
  {
  }

  lemma {:induction false} PeerIsOne(p: PeerInfo, a: Attr)
    requires |p.endpoint| == 28
    ensures PeerIs(if Type(a) == 9 then p else PeerField(p, a), p, [a])
  {
    FieldSet(p, a);
    LatestCons(a, [], 1, 32);
    LatestCons(a, [], 2, 32);
    LatestCons(a, [], 5, 2);
    LatestCons(a, [], 6, 16);
    LatestCons(a, [], 7, 8);
    LatestCons(a, [], 8, 8);
    NumberOf(a, 5, 2, p.keepalive);
    NumberOf(a, 7, 8, p.rxBytes);
    NumberOf(a, 8, 8, p.txBytes);
    hide Latest, Type, GetLe16, GetLe32, GetLe64, PeerField, HasForm, Number;
  }

  /** Whatever attributes a peer has: each field is the last one of its number and length. */
  lemma {:induction false} PeerRead(attrs: seq<Attr>, p: Peer)
    requires |p.info.endpoint| == 28 && ListsLegal(attrs)
    ensures PeerIs(ReadPeer(attrs, p).info, p.info, attrs)
    decreases |attrs|
  {
    if attrs != [] {
      var a, rest := attrs[0], attrs[1..];
      assert attrs == [a] + rest;
      var q := ReadPeerCons(attrs, p);
      PeerIsOne(p.info, a);
      hide PeerIs, PeerField, Type, ReadPeer, ListsLegal;
      PeerRead(rest, q);
      PeerIsMore(ReadPeer(attrs, p).info, q.info, p.info, a, rest);
    }
  }

  predicate Shared(attrs: seq<Attr>) {
    exists a :: a in attrs && HasForm(a, 2, 32) && !IsZero(a.payload)
  }

  /** One attribute of a peer, and then the others. */
  lemma {:induction false} ReadPeerCons(attrs: seq<Attr>, p: Peer) returns (q: Peer)
    requires |p.info.endpoint| == 28 && attrs != [] && ListsLegal(attrs)
    ensures |q.info.endpoint| == 28 && ListsLegal(attrs[1..]) && ReadPeer(attrs, p) == ReadPeer(attrs[1..], q)
    ensures q.info == if Type(attrs[0]) == 9 then p.info else PeerField(p.info, attrs[0])
    ensures q.ips == p.ips + ListOf(attrs[0])
  {
    hide Walk, PeerField, ReadIps, Type;
    var a := attrs[0];
    if Type(a) == 9 {
      IpsFrom(Walk(a.payload), p.ips, []);
      assert p.ips + [] == p.ips;
      q := p.(ips := ReadIps(Walk(a.payload), p.ips).0);
    } else {
      assert p.ips + [] == p.ips;
      q := p.(info := PeerField(p.info, a));
    }
  }

  /** The allowed IPs in an attribute of a peer. */
  function ListOf(a: Attr): seq<AllowedIp> {
    if Type(a) == 9 then ReadIps(Walk(a.payload), []).0 else []
  }

  function Lists(attrs: seq<Attr>): seq<AllowedIp> {
    if attrs == [] then [] else ListOf(attrs[0]) + Lists(attrs[1..])
  }

  lemma {:induction false} IpsRead(attrs: seq<Attr>, p: Peer)
    requires |p.info.endpoint| == 28 && ListsLegal(attrs)
    ensures ReadPeer(attrs, p).ips == p.ips + Lists(attrs)
    decreases |attrs|
  {
    if attrs == [] {
      assert p.ips + [] == p.ips;
    } else {
      var q := ReadPeerCons(attrs, p);
      hide ReadPeer, ListOf, ListsLegal;
      IpsRead(attrs[1..], q);
      Associate(p.ips, ListOf(attrs[0]), Lists(attrs[1..]));
    }
  }

  /** Behind the first list with an illegal allowed IP nothing is read. */
  lemma {:induction false} PeerStops(attrs: seq<Attr>, nest: Attr, rest: seq<Attr>, p: Peer)
    requires |p.info.endpoint| == 28 && ListsLegal(attrs) && Type(nest) == 9 && !ReadIps(Walk(nest.payload), []).1
    ensures var q := ReadPeer(attrs, p); ReadPeer(attrs + [nest] + rest, p) == q.(ips := q.ips + ListOf(nest))
    decreases |attrs|
  {
    hide Walk, ReadIps, Type, PeerField;
    var all := attrs + [nest] + rest;
    if attrs == [] {
      assert all[0] == nest;
      IpsFrom(Walk(nest.payload), p.ips, []);
      assert p.ips + [] == p.ips;
    } else {
      var a := attrs[0];
      assert all[0] == a && all[1..] == attrs[1..] + [nest] + rest;
      assert Type(a) == 9 ==> ReadIps(Walk(a.payload), p.ips).1 by {
        IpsFrom(Walk(a.payload), p.ips, []);
        assert p.ips + [] == p.ips;
      }
      if Type(a) == 9 {
        PeerStops(attrs[1..], nest, rest, p.(ips := ReadIps(Walk(a.payload), p.ips).0));
      } else {
        PeerStops(attrs[1..], nest, rest, p.(info := PeerField(p.info, a)));
      }
    }
  }

  /** A preshared key was there if one that is not zero was received. */
  lemma {:induction false} SharedRead(attrs: seq<Attr>, p: Peer)
    requires |p.info.endpoint| == 28 && ListsLegal(attrs)
    ensures ReadPeer(attrs, p).info.hasPresharedKey <==> p.info.hasPresharedKey || Shared(attrs)
    decreases |attrs|
  {
    if attrs != [] {
      var a, rest := attrs[0], attrs[1..];
      var q := ReadPeerCons(attrs, p);
      assert q.info.hasPresharedKey <==> p.info.hasPresharedKey || (HasForm(a, 2, 32) && !IsZero(a.payload)) by {
        SharedOne(p.info, a);
      }
      hide ReadPeer, HasForm, ListsLegal, PeerField, Type, IsZero;
      SharedRead(rest, q);
      assert forall b :: b in attrs <==> b == a || b in rest;
    }
  }

  lemma SharedOne(p: PeerInfo, a: Attr)
    requires |p.endpoint| == 28
    ensures var q := if Type(a) == 9 then p else PeerField(p, a);
      q.hasPresharedKey <==> p.hasPresharedKey || (HasForm(a, 2, 32) && !IsZero(a.payload))
  {
    hide Type, GetLe16, GetLe64, IsZero;
  }

  /** The socket addresses that are accepted: sockaddr_in and sockaddr_in6. */
  predicate SocketAddress(b: seq<Byte>) {
    (|b| == 16 && GetLe16(b) == AF_INET) || (|b| == 28 && GetLe16(b) == AF_INET6)
  }

  function Overlaid(b: seq<Byte>, endpoint: seq<Byte>): seq<Byte>
    requires |b| <= |endpoint|
  {
    b + endpoint[|b|..]
  }

  lemma EndpointOne(p: PeerInfo, a: Attr)
    requires |p.endpoint| == 28
    ensures var q := if Type(a) == 9 then p else PeerField(p, a);
      q.endpoint == if Type(a) == 4 && SocketAddress(a.payload) then Overlaid(a.payload, p.endpoint) else p.endpoint
  {
    hide Type, GetLe16, GetLe64, IsZero;
    if |a.payload| == 28 {
      assert a.payload + p.endpoint[28..] == a.payload;
    }
  }

  /** An endpoint that all attributes of its type agree on. */
  lemma {:induction false} EndpointRead(attrs: seq<Attr>, p: Peer, e: Attr)
    requires |p.info.endpoint| == 28 && ListsLegal(attrs) && Type(e) == 4 && SocketAddress(e.payload)
    requires forall b :: b in attrs && Type(b) == 4 ==> b == e
    ensures ReadPeer(attrs, p).info.endpoint
         == if e in attrs then Overlaid(e.payload, p.info.endpoint) else p.info.endpoint
    decreases |attrs|
  {
    if attrs != [] {
      var a, rest := attrs[0], attrs[1..];
      var q := ReadPeerCons(attrs, p);
      EndpointOne(p.info, a);
      hide ReadPeer, ListsLegal, PeerField, Type, GetLe16;
      EndpointRead(rest, q, e);
      assert e in attrs <==> a == e || e in rest;
      assert a == e ==> Type(a) == 4;
      var once := Overlaid(e.payload, p.info.endpoint);
      assert Overlaid(e.payload, once) == once;
    }
  }

  //
  // A peer as it is sent
  //

  predicate Full(p: Peer) {
    p.info.Sized() && |p.info.lastHandshake| == 16 && AllSized(p.ips) && AllLegal(p.ips)
    && p.info.rxBytes < 0x1_0000_0000_0000_0000 && p.info.txBytes < 0x1_0000_0000_0000_0000
  }

  function IpReply(ip: AllowedIp): Attr
    requires ip.Sized()
  {
    var address := if ip.family == AF_INET then ip.ip[..4] else ip.ip;
    Attr(NESTED, EncodeAll([Attr(3, [ip.cidr]), Attr(1, Le16(ip.family)), Attr(2, address)]))
  }

  function IpReplies(ips: seq<AllowedIp>): (r: seq<Attr>)
    requires AllSized(ips)
    ensures |r| == |ips|
  {
    seq(|ips|, k requires 0 <= k < |ips| => IpReply(ips[k]))
  }

  /** sockaddr_in or sockaddr_in6, if the peer has an endpoint. */
  function Address(p: PeerInfo): (r: Option<seq<Byte>>)
    requires p.Sized()
    ensures r.Some? ==> SocketAddress(r.value)
  {
    if p.EndpointFamily() == AF_INET then
      assert GetLe16(p.endpoint[..16]) == AF_INET;
      Some(p.endpoint[..16])
    else if p.EndpointFamily() == AF_INET6 then Some(p.endpoint)
    else None
  }

  /** The attributes of a peer: public and preshared key, time of the last handshake, keepalive
      interval, bytes sent and received, protocol version, allowed IPs, and endpoint. */
  function PeerReply(p: Peer): seq<Attr>
    requires Full(p)
  {
    var i := p.info;
    [Attr(1, i.publicKey), Attr(2, i.presharedKey), Attr(6, i.lastHandshake), Attr(5, Le16(i.keepalive)),
     Attr(8, Le64(i.txBytes)), Attr(7, Le64(i.rxBytes)), Attr(10, Le32(1)),
     Attr(NESTED + 9, EncodeAll(IpReplies(p.ips)))]
    + match Address(i) case None => [] case Some(b) => [Attr(4, b)]
  }

  predicate SameIp(q: AllowedIp, ip: AllowedIp) {
    q.family == ip.family && q.cidr == ip.cidr && |q.ip| == |ip.ip| == 16
    && q.ip[..4] == ip.ip[..4] && (ip.family == AF_INET6 ==> q.ip == ip.ip)
  }

  predicate SameIps(q: seq<AllowedIp>, ips: seq<AllowedIp>) {
    |q| == |ips| && forall k :: 0 <= k < |ips| ==> SameIp(q[k], ips[k])
  }

  /** Every field of p is in q. */
  predicate SamePeer(q: Peer, p: Peer) {
    p.info.Sized() && q.info.publicKey == p.info.publicKey && q.info.hasPublicKey
    && q.info.presharedKey == p.info.presharedKey
    && (q.info.hasPresharedKey <==> exists k :: 0 <= k < 32 && p.info.presharedKey[k] != 0)
    && q.info.keepalive == p.info.keepalive && q.info.lastHandshake == p.info.lastHandshake
    && q.info.rxBytes == p.info.rxBytes && q.info.txBytes == p.info.txBytes
    && (match Address(p.info) case None => q.info.endpoint == Zeros(28) case Some(b) => b <= q.info.endpoint)
    && SameIps(q.ips, p.ips)
  }

  predicate DistinctTypes(attrs: seq<Attr>) {
    forall j, k :: 0 <= j < |attrs| && 0 <= k < |attrs| && Type(attrs[j]) == Type(attrs[k]) ==> j == k
  }

  lemma PeerReplyTypes(p: Peer)
    requires Full(p)
    ensures DistinctTypes(PeerReply(p)) && SmallTypes(PeerReply(p))
    ensures Address(p.info).None? ==> forall a :: a in PeerReply(p) ==> Type(a) != 4
  {
    hide EncodeAll, IpReplies, Address, Le16, Le32, Le64;
    var r := PeerReply(p);
    assert Type(r[0]) == 1 && Type(r[1]) == 2 && Type(r[2]) == 6 && Type(r[3]) == 5 && Type(r[4]) == 8;
    assert Type(r[5]) == 7 && Type(r[6]) == 10 && Type(r[7]) == 9 && (|r| == 9 ==> Type(r[8]) == 4);
  }

  /** In whatever order attributes of different types come, each is the last of its type. */
  lemma {:induction false} LatestOf(attrs: seq<Attr>, reply: seq<Attr>, k: nat, len: nat)
    requires multiset(attrs) == multiset(reply) && DistinctTypes(reply)
    requires k < |reply| && HasForm(reply[k], Type(reply[k]), len)
    ensures Latest(attrs, Type(reply[k]), len) == Some(reply[k].payload)
  {
    var a := reply[k];
    assert a in multiset(reply);
    forall b | b in attrs && Type(b) == Type(a)
      ensures b == a
    {
      assert b in multiset(attrs);
      var j :| 0 <= j < |reply| && reply[j] == b;
    }
    LatestAmong(attrs, a, len);
  }

  lemma IpReplySize(ip: AllowedIp)
    requires ip.Sized()
    ensures |IpReply(ip).payload| < 0x1_0000
  {
    var address := if ip.family == AF_INET then ip.ip[..4] else ip.ip;
    var a, b, c := Attr(3, [ip.cidr]), Attr(1, Le16(ip.family)), Attr(2, address);
    hide EncodeAll, Le16;
    assert [a, b, c] == [a] + [b] + [c];
    SizeConcat([a] + [b], [c]);
    SizeConcat([a], [b]);
    OptionalSize(true, a);
    OptionalSize(true, b);
    OptionalSize(true, c);
  }

  lemma {:induction false} ReadThree(a: Attr, b: Attr, c: Attr, ip: AllowedIp)
    requires |ip.ip| == 16
    ensures ReadIp([a, b, c], ip) == IpField(IpField(IpField(ip, a), b), c)
  {
    hide IpField;
    assert [a, b, c][1..] == [b, c] && [b, c][1..] == [c] && [c][1..] == [];
    assert ReadIp([c], IpField(IpField(ip, a), b)) == ReadIp([], IpField(IpField(IpField(ip, a), b), c));
  }

  lemma {:induction false} IpReplyBack(ip: AllowedIp)
    requires ip.Sized() && ip.Legal()
    ensures SameIp(ReadIp(Walk(IpReply(ip).payload), ZERO_IP), ip)
  {
    var address := if ip.family == AF_INET then ip.ip[..4] else ip.ip;
    var a, b, c := Attr(3, [ip.cidr]), Attr(1, Le16(ip.family)), Attr(2, address);
    IpReplySize(ip);
    hide EncodeAll, Walk, ReadIp;
    WalkSmall([a, b, c]);
    Le16RoundTrip(ip.family);
    ReadThree(a, b, c, ZERO_IP);
    hide Le16, GetLe16;
    assert IpField(IpField(ZERO_IP, a), b) == ZERO_IP.(cidr := ip.cidr, family := ip.family);
    assert address[..4] == ip.ip[..4];
  }

  lemma SameLegal(q: AllowedIp, ip: AllowedIp)
    requires SameIp(q, ip)
    ensures q.Legal() == ip.Legal()
  {
  }

  lemma {:induction false} IpRepliesBack(ips: seq<AllowedIp>, acc: seq<AllowedIp>, sent: seq<AllowedIp>)
    requires AllSized(ips) && AllLegal(ips) && SameIps(acc, sent)
    ensures var (r, ok) := ReadIps(IpReplies(ips), acc); ok && SameIps(r, sent + ips)
    decreases |ips|
  {
    hide IpReply, Walk, ReadIp, SameIp;
    if ips == [] {
      assert sent + ips == sent;
    } else {
      var attrs, rest := IpReplies(ips), ips[1..];
      assert attrs[0] == IpReply(ips[0]) && attrs[1..] == IpReplies(rest);
      var ip := ReadIp(Walk(attrs[0].payload), ZERO_IP);
      IpReplyBack(ips[0]);
      SameLegal(ip, ips[0]);
      LegalCons(ips);
      IpRepliesBack(rest, acc + [ip], sent + [ips[0]]);
      Associate(sent, [ips[0]], rest);
      assert [ips[0]] + rest == ips;
    }
  }

  /** The only list of allowed IPs among the attributes of a peer. */
  lemma {:induction false} OneList(attrs: seq<Attr>, nest: Attr)
    requires Type(nest) == 9 && multiset(attrs)[nest] == 1
    requires forall a :: a in attrs && Type(a) == 9 ==> a == nest
    ensures Lists(attrs) == ListOf(nest)
  {
    hide ListOf, Type;
    var a, rest := attrs[0], attrs[1..];
    assert attrs == [a] + rest;
    assert multiset(attrs) == multiset([a]) + multiset(rest);
    if a == nest {
      assert nest !in multiset(rest);
      NoList(rest);
      assert ListOf(nest) + [] == ListOf(nest);
    } else {
      NotAList(a);
      OneList(rest, nest);
    }
  }

  lemma NotAList(a: Attr)
    requires Type(a) != 9
    ensures ListOf(a) == []
  {
  }

  lemma {:induction false} NoList(attrs: seq<Attr>)
    requires forall a :: a in attrs ==> Type(a) != 9
    ensures Lists(attrs) == []
  {
    if attrs != [] {
      NoList(attrs[1..]);
    }
  }

  /** Attributes in any order: a member of one list is a member of the other. */
  lemma SameMembers(attrs: seq<Attr>, reply: seq<Attr>)
    requires multiset(attrs) == multiset(reply)
    ensures forall a :: a in attrs <==> a in reply
    ensures SmallTypes(reply) ==> SmallTypes(attrs)
  {
    forall a: Attr
      ensures a in attrs <==> a in reply
    {
      assert a in multiset(attrs) <==> a in multiset(reply);
    }
    assert forall k :: 0 <= k < |attrs| ==> attrs[k] in reply;
  }

  /** The list of allowed IPs in a reply. */
  lemma {:induction false} ReplyIps(p: Peer, attrs: seq<Attr>)
    requires Full(p) && multiset(attrs) == multiset(PeerReply(p)) && |EncodeAll(attrs)| < 0x1_0000
    ensures Walk(EncodeAll(attrs)) == attrs && ListsLegal(attrs) && SameIps(Lists(attrs), p.ips)
  {
    hide EncodeAll, IpReply, Walk, ReadIps, SameIp;
    var reply := PeerReply(p);
    var nest := reply[7];
    PeerReplyTypes(p);
    SameMembers(attrs, reply);
    WalkSmall(attrs);
    PartsFit(attrs);
    assert nest in attrs;
    WalkIps(p.ips, nest);
    OnlyOne(reply, 7, attrs);
    OneList(attrs, nest);
  }

  lemma {:induction false} WalkIps(ips: seq<AllowedIp>, nest: Attr)
    requires AllSized(ips) && AllLegal(ips) && nest == Attr(NESTED + 9, EncodeAll(IpReplies(ips)))
    requires |nest.payload| < 0x1_0000
    ensures Type(nest) == 9 && ReadIps(Walk(nest.payload), []).1 && SameIps(ListOf(nest), ips)
  {
    hide EncodeAll, Walk, ReadIps, SameIp;
    WalkSmall(IpReplies(ips));
    IpRepliesBack(ips, [], []);
    assert [] + ips == ips;
  }

  /** Of a list with different types an attribute is there once, and alone of its type. */
  lemma OnlyOne(reply: seq<Attr>, k: nat, attrs: seq<Attr>)
    requires DistinctTypes(reply) && k < |reply| && multiset(attrs) == multiset(reply)
    ensures multiset(attrs)[reply[k]] == 1 && forall a :: a in attrs && Type(a) == Type(reply[k]) ==> a == reply[k]
  {
    hide Type;
    var a, before, behind := reply[k], reply[..k], reply[k + 1..];
    assert reply == before + [a] + behind;
    assert a !in before && a !in behind;
    assert multiset(reply) == multiset(before) + multiset([a]) + multiset(behind);
    forall b | b in attrs && Type(b) == Type(a)
      ensures b == a
    {
      assert b in multiset(attrs);
      var j :| 0 <= j < |reply| && reply[j] == b;
    }
  }

  lemma {:induction false} ReplyFields(p: Peer, attrs: seq<Attr>)
    requires Full(p) && multiset(attrs) == multiset(PeerReply(p))
    ensures Latest(attrs, 1, 32) == Some(p.info.publicKey) && Latest(attrs, 2, 32) == Some(p.info.presharedKey)
    ensures Latest(attrs, 6, 16) == Some(p.info.lastHandshake)
    ensures Number(Latest(attrs, 5, 2), 0) == p.info.keepalive
    ensures Number(Latest(attrs, 7, 8), 0) == p.info.rxBytes && Number(Latest(attrs, 8, 8), 0) == p.info.txBytes
  {
    hide PeerReply, Le16, Le64, GetLe16, GetLe64, Latest, DistinctTypes, SmallTypes, EncodeAll, IpReplies, Type;
    var reply, i := PeerReply(p), p.info;
    PeerReplyTypes(p);
    PeerReplyAt(p);
    Le16RoundTrip(i.keepalive);
    Le64RoundTrip(i.rxBytes);
    Le64RoundTrip(i.txBytes);
    Said(attrs, reply, 0, 1, 32, i.publicKey);
    Said(attrs, reply, 1, 2, 32, i.presharedKey);
    Said(attrs, reply, 2, 6, 16, i.lastHandshake);
    Said(attrs, reply, 3, 5, 2, Le16(i.keepalive));
    Said(attrs, reply, 4, 8, 8, Le64(i.txBytes));
    Said(attrs, reply, 5, 7, 8, Le64(i.rxBytes));
  }

  lemma PeerReplyAt(p: Peer)
    requires Full(p)
    ensures var r, i := PeerReply(p), p.info;
      |r| >= 8 && r[0] == Attr(1, i.publicKey) && r[1] == Attr(2, i.presharedKey) && r[2] == Attr(6, i.lastHandshake)
      && r[3] == Attr(5, Le16(i.keepalive)) && r[4] == Attr(8, Le64(i.txBytes)) && r[5] == Attr(7, Le64(i.rxBytes))
      && r[7] == Attr(NESTED + 9, EncodeAll(IpReplies(p.ips)))
  {
  }

  lemma {:induction false} Said(attrs: seq<Attr>, reply: seq<Attr>, k: nat, typ: nat, len: nat, payload: seq<Byte>)
    requires multiset(attrs) == multiset(reply) && DistinctTypes(reply)
    requires k < |reply| && reply[k] == Attr(typ, payload) && typ < TYPE_MASK && |payload| == len > 0
    ensures Latest(attrs, typ, len) == Some(payload)
  {
    hide Latest, DistinctTypes;
    LatestOf(attrs, reply, k, len);
  }

  lemma {:induction false} ReplyShared(p: Peer, attrs: seq<Attr>)
    requires Full(p) && multiset(attrs) == multiset(PeerReply(p)) && ListsLegal(attrs)
    ensures ReadPeer(attrs, NEW_PEER).info.hasPresharedKey <==> !IsZero(p.info.presharedKey)
  {
    hide ReadPeer, ListsLegal, IsZero, DistinctTypes, PeerReply, Type;
    var reply := PeerReply(p);
    PeerReplyTypes(p);
    PeerReplyAt(p);
    OnlyOne(reply, 1, attrs);
    SharedRead(attrs, NEW_PEER);
    var a := reply[1];
    assert a in multiset(attrs);
    SharedIs(attrs, a);
  }

  lemma SharedIs(attrs: seq<Attr>, a: Attr)
    requires a in attrs && a.typ == 2 && |a.payload| == 32
    requires forall b :: b in attrs && Type(b) == Type(a) ==> b == a
    ensures Shared(attrs) <==> !IsZero(a.payload)
  {
    hide IsZero;
    assert HasForm(a, 2, 32);
  }

  lemma AnyAddress(b: seq<Byte>)
    requires b == Le16(AF_INET) + Zeros(14)
    ensures SocketAddress(b)
  {
  }

  lemma {:induction false} ReplyEndpoint(p: Peer, attrs: seq<Attr>)
    requires Full(p) && multiset(attrs) == multiset(PeerReply(p)) && ListsLegal(attrs)
    ensures var endpoint := ReadPeer(attrs, NEW_PEER).info.endpoint;
      match Address(p.info) case None => endpoint == Zeros(28) case Some(b) => b <= endpoint
  {
    hide EncodeAll, ReadPeer, ListsLegal, IpReplies, DistinctTypes, GetLe16;
    var reply := PeerReply(p);
    PeerReplyTypes(p);
    SameMembers(attrs, reply);
    var b := Address(p.info);
    hide Address;
    if b.Some? {
      assert reply[8] == Attr(4, b.value);
      OnlyOne(reply, 8, attrs);
      assert reply[8] in attrs;
      EndpointRead(attrs, NEW_PEER, reply[8]);
    } else {
      var e := Attr(4, Le16(AF_INET) + Zeros(14));
      AnyAddress(e.payload);
      EndpointRead(attrs, NEW_PEER, e);
    }
  }

  /** A peer is read back, whatever the order of its attributes. */
  lemma {:induction false} PeerReplyBack(p: Peer, attrs: seq<Attr>)
    requires Full(p) && multiset(attrs) == multiset(PeerReply(p)) && |EncodeAll(attrs)| < 0x1_0000
    ensures SamePeer(ReadPeer(Walk(EncodeAll(attrs)), NEW_PEER), p)
  {
    hide EncodeAll, Walk, ReadPeer, Lists, ListsLegal, Address, SameIps;
    ReplyIps(p, attrs);
    IpsRead(attrs, NEW_PEER);
    assert [] + Lists(attrs) == Lists(attrs);
    PeerRead(attrs, NEW_PEER);
    ReplyFields(p, attrs);
    ReplyShared(p, attrs);
    ReplyEndpoint(p, attrs);
  }

  //
  // Every field of a device is the last one received
  //

  /** The lists of peers among the attributes of a message are read to their end. */
  predicate PeersKeyed(attrs: seq<Attr>) {
    forall a :: a in attrs && Type(a) == 8 ==> ReadPeers(Walk(a.payload), []).1
  }

  lemma {:induction false} PeersFrom(attrs: seq<Attr>, acc: seq<Peer>, more: seq<Peer>)
    ensures var (ps, ok) := ReadPeers(attrs, more); ReadPeers(attrs, acc + more) == (acc + ps, ok)
    decreases |attrs|
  {
    if attrs != [] {
      hide ReadPeer, Walk;
      var p := ReadPeer(Walk(attrs[0].payload), NEW_PEER);
      assert acc + more + [p] == acc + (more + [p]);
      PeersFrom(attrs[1..], acc, more + [p]);
    }
  }

  /** A list of peers is accepted exactly if each of them has a public key. */
  lemma {:induction false} PeersAccepted(attrs: seq<Attr>, acc: seq<Peer>)
    ensures var (ps, ok) := ReadPeers(attrs, acc);
      (ok <==> forall k :: 0 <= k < |attrs| ==> ReadPeer(Walk(attrs[k].payload), NEW_PEER).info.hasPublicKey)
      && (ok ==> |ps| == |acc| + |attrs| && acc <= ps
                 && forall k :: 0 <= k < |attrs| ==> ps[|acc| + k] == ReadPeer(Walk(attrs[k].payload), NEW_PEER))
    decreases |attrs|
  {
    hide ReadPeer, Walk;
    if attrs != [] {
      var p, rest := ReadPeer(Walk(attrs[0].payload), NEW_PEER), attrs[1..];
      PeersAccepted(rest, acc + [p]);
      assert forall k :: 1 <= k < |attrs| ==> attrs[k] == rest[k - 1];
      assert forall k :: 0 <= k < |rest| ==> rest[k] == attrs[k + 1];
    }
  }

  predicate DeviceIs(r: DeviceInfo, d: DeviceInfo, attrs: seq<Attr>) {
    r.ifindex == Number(Latest(attrs, 1, 4), d.ifindex)
    && r.name == (match Latest(attrs, 2, 0) case None => d.name case Some(b) => CString(b, 15))
    && r.privateKey == Bytes(Latest(attrs, 3, 32), d.privateKey)
    && r.hasPrivateKey == (d.hasPrivateKey || Latest(attrs, 3, 32).Some?)
    && r.publicKey == Bytes(Latest(attrs, 4, 32), d.publicKey)
    && r.hasPublicKey == (d.hasPublicKey || Latest(attrs, 4, 32).Some?)
    && r.listenPort == Number(Latest(attrs, 6, 2), d.listenPort)
    && r.fwmark == Number(Latest(attrs, 7, 4), d.fwmark)
    && r.replacePeers == d.replacePeers && r.hasListenPort == d.hasListenPort && r.hasFwmark == d.hasFwmark
  }

  lemma {:induction false} DeviceIsMore(r: DeviceInfo, q: DeviceInfo, d: DeviceInfo, a: Attr, rest: seq<Attr>)
    requires DeviceIs(r, q, rest) && DeviceIs(q, d, [a])
    ensures DeviceIs(r, d, [a] + rest)
  {
    LatestCons(a, rest, 1, 4);
    LatestCons(a, rest, 2, 0);
    LatestCons(a, rest, 3, 32);
    LatestCons(a, rest, 4, 32);
    LatestCons(a, rest, 6, 2);
    LatestCons(a, rest, 7, 4);
    hide Latest, CString;
  }

  predicate KnownDevice(a: Attr) {
    HasForm(a, 1, 4) || HasForm(a, 2, 0) || HasForm(a, 3, 32) || HasForm(a, 4, 32) || HasForm(a, 6, 2)
    || HasForm(a, 7, 4)
  }

  lemma DeviceCases(d: DeviceInfo, a: Attr)
    ensures var r := if Type(a) == 8 then d else DeviceField(d, a);
      (HasForm(a, 1, 4) ==> r == d.(ifindex := GetLe32(a.payload)))
      && (HasForm(a, 2, 0) ==> r == d.(name := CString(a.payload, 15)))
      && (HasForm(a, 3, 32) ==> r == d.(privateKey := a.payload, hasPrivateKey := true))
      && (HasForm(a, 4, 32) ==> r == d.(publicKey := a.payload, hasPublicKey := true))
      && (HasForm(a, 6, 2) ==> r == d.(listenPort := GetLe16(a.payload)))
      && (HasForm(a, 7, 4) ==> r == d.(fwmark := GetLe32(a.payload)))
      && (!KnownDevice(a) ==> r == d)
  {
    hide Type, GetLe16, GetLe32, CString;
  }

  lemma OneFormDevice(a: Attr, typ: nat, len: nat)
    requires HasForm(a, typ, len)
    ensures typ != 1 ==> !HasForm(a, 1, 4)
    ensures typ != 2 ==> !HasForm(a, 2, 0)
    ensures typ != 3 ==> !HasForm(a, 3, 32)
    ensures typ != 4 ==> !HasForm(a, 4, 32)
    ensures typ != 6 ==> !HasForm(a, 6, 2)
    ensures typ != 7 ==> !HasForm(a, 7, 4)
  {
  }

  lemma {:induction false} DeviceIsOne(d: DeviceInfo, a: Attr)
    ensures DeviceIs(if Type(a) == 8 then d else DeviceField(d, a), d, [a])
  {
    DeviceCases(d, a);
    LatestCons(a, [], 1, 4);
    LatestCons(a, [], 2, 0);
    LatestCons(a, [], 3, 32);
    LatestCons(a, [], 4, 32);
    LatestCons(a, [], 6, 2);
    LatestCons(a, [], 7, 4);
    NumberOf(a, 1, 4, d.ifindex);
    NumberOf(a, 6, 2, d.listenPort);
    NumberOf(a, 7, 4, d.fwmark);
    hide Latest, Type, GetLe16, GetLe32, GetLe64, DeviceField, HasForm, Number, CString;
    if KnownDevice(a) {
      var typ, len :| HasForm(a, typ, len) && typ in [1, 2, 3, 4, 6, 7];
      OneFormDevice(a, typ, len);
    }
  }

  /** The peers in an attribute of a message. */
  function PeersOf(a: Attr): seq<Peer> {
    if Type(a) == 8 then ReadPeers(Walk(a.payload), []).0 else []
  }

  function AllPeers(attrs: seq<Attr>): seq<Peer> {
    if attrs == [] then [] else PeersOf(attrs[0]) + AllPeers(attrs[1..])
  }

  /** Whatever attributes a message has: each field of the device is the last one of its
      number and length, and all peers are added. */
  lemma {:induction false} MessageRead(attrs: seq<Attr>, v: DeviceValue)
    requires PeersKeyed(attrs)
    ensures var (r, ok) := ReadMessage(attrs, v);
      ok && DeviceIs(r.info, v.info, attrs) && r.peers == v.peers + AllPeers(attrs)
    decreases |attrs|
  {
    if attrs == [] {
      assert v.peers + [] == v.peers;
    } else {
      var a, rest := attrs[0], attrs[1..];
      assert attrs == [a] + rest;
      DeviceIsOne(v.info, a);
      var w := AfterAttr(attrs, v);
      hide DeviceIs, DeviceField, Type, ReadMessage, PeersKeyed, PeersOf;
      MessageRead(rest, w);
      DeviceIsMore(ReadMessage(attrs, v).0.info, w.info, v.info, a, rest);
      Associate(v.peers, PeersOf(a), AllPeers(rest));
    }
  }

  /** One attribute of a message, and then the others. */
  lemma {:induction false} AfterAttr(attrs: seq<Attr>, v: DeviceValue) returns (w: DeviceValue)
    requires attrs != [] && PeersKeyed(attrs)
    ensures PeersKeyed(attrs[1..]) && ReadMessage(attrs, v) == ReadMessage(attrs[1..], w)
    ensures w.info == if Type(attrs[0]) == 8 then v.info else DeviceField(v.info, attrs[0])
    ensures w.peers == v.peers + PeersOf(attrs[0])
  {
    hide Walk, DeviceField, ReadPeers, Type;
    var a := attrs[0];
    assert v.peers + [] == v.peers;
    if Type(a) == 8 {
      PeersFrom(Walk(a.payload), v.peers, []);
      w := v.(peers := ReadPeers(Walk(a.payload), v.peers).0);
    } else {
      w := v.(info := DeviceField(v.info, a));
    }
  }

  /** Behind the first list with a peer that has no public key nothing is read, and the message fails. */
  lemma {:induction false} MessageStops(attrs: seq<Attr>, nest: Attr, rest: seq<Attr>, v: DeviceValue)
    requires PeersKeyed(attrs) && Type(nest) == 8 && !ReadPeers(Walk(nest.payload), []).1
    ensures var r := ReadMessage(attrs, v).0;
      ReadMessage(attrs + [nest] + rest, v) == (r.(peers := r.peers + PeersOf(nest)), false)
  {
    hide Walk, ReadPeers, Type, DeviceField;
    var r := ReadMessage(attrs, v).0;
    Associate(attrs, [nest], rest);
    MessageRead(attrs, v);
    ReadMessageConcat(attrs, [nest] + rest, v);
    assert ([nest] + rest)[0] == nest;
    PeersFrom(Walk(nest.payload), r.peers, []);
    assert r.peers + [] == r.peers;
  }

  //
  // A device as it is sent
  //

  function Nests(lists: seq<seq<Attr>>): (r: seq<Attr>)
    ensures |r| == |lists|
  {
    seq(|lists|, k requires 0 <= k < |lists| => Attr(NESTED, EncodeAll(lists[k])))
  }

  /** The attributes of a device: port, mark, interface, peers with their attributes, and
      the keys it has. */
  function DeviceReply(d: DeviceInfo, lists: seq<seq<Attr>>): seq<Attr>
    requires d.Sized()
  {
    [Attr(6, Le16(d.listenPort)), Attr(7, Le32(d.fwmark)), Attr(1, Le32(d.ifindex)), Attr(2, d.name + [0]),
     Attr(NESTED + 8, EncodeAll(Nests(lists)))]
    + Opt(d.hasPrivateKey, Attr(3, d.privateKey)) + Opt(d.hasPublicKey, Attr(4, d.publicKey))
  }

  /** Every field of d is in r. */
  predicate SameDevice(r: DeviceInfo, d: DeviceInfo) {
    r.listenPort == d.listenPort && r.fwmark == d.fwmark && r.ifindex == d.ifindex && r.name == d.name
    && r.hasPrivateKey == d.hasPrivateKey && (d.hasPrivateKey ==> r.privateKey == d.privateKey)
    && r.hasPublicKey == d.hasPublicKey && (d.hasPublicKey ==> r.publicKey == d.publicKey)
  }

  /** The attributes of each peer, in some order. */
  predicate Shuffled(lists: seq<seq<Attr>>, ps: seq<Peer>) {
    |lists| == |ps| && forall k :: 0 <= k < |ps| ==> Full(ps[k]) && multiset(lists[k]) == multiset(PeerReply(ps[k]))
  }

  predicate SamePeers(qs: seq<Peer>, ps: seq<Peer>) {
    |qs| == |ps| && forall k :: 0 <= k < |ps| ==> SamePeer(qs[k], ps[k])
  }

  lemma DeviceReplyTypes(d: DeviceInfo, lists: seq<seq<Attr>>)
    requires d.Sized()
    ensures DistinctTypes(DeviceReply(d, lists)) && SmallTypes(DeviceReply(d, lists))
    ensures !d.hasPrivateKey ==> forall a :: a in DeviceReply(d, lists) ==> Type(a) != 3
    ensures !d.hasPublicKey ==> forall a :: a in DeviceReply(d, lists) ==> Type(a) != 4
  {
    hide EncodeAll, Nests, Le16, Le32;
    var r := DeviceReply(d, lists);
    assert Type(r[0]) == 6 && Type(r[1]) == 7 && Type(r[2]) == 1 && Type(r[3]) == 2 && Type(r[4]) == 8;
    assert |r| > 5 ==> Type(r[5]) == if d.hasPrivateKey then 3 else 4;
    assert |r| > 6 ==> Type(r[6]) == 4;
  }

  lemma DeviceReplyAt(d: DeviceInfo, lists: seq<seq<Attr>>)
    requires d.Sized()
    ensures var r := DeviceReply(d, lists);
      |r| >= 5 && r[0] == Attr(6, Le16(d.listenPort)) && r[1] == Attr(7, Le32(d.fwmark))
      && r[2] == Attr(1, Le32(d.ifindex)) && r[3] == Attr(2, d.name + [0])
      && r[4] == Attr(NESTED + 8, EncodeAll(Nests(lists)))
      && (d.hasPrivateKey ==> |r| > 5 && r[5] == Attr(3, d.privateKey))
      && (d.hasPublicKey ==> |r| > 5 && r[|r| - 1] == Attr(4, d.publicKey))
  {
  }

  lemma {:induction false} DeviceFieldsBack(d: DeviceInfo, lists: seq<seq<Attr>>, attrs: seq<Attr>, r: DeviceInfo)
    requires d.Sized() && multiset(attrs) == multiset(DeviceReply(d, lists)) && DeviceIs(r, ZERO_DEVICE, attrs)
    ensures SameDevice(r, d)
  {
    hide DeviceReply, Le16, Le32, GetLe16, GetLe32, Latest, DistinctTypes, SmallTypes, EncodeAll, Nests, Type, CString;
    var reply := DeviceReply(d, lists);
    DeviceReplyTypes(d, lists);
    DeviceReplyAt(d, lists);
    SameMembers(attrs, reply);
    Le16RoundTrip(d.listenPort);
    Le32RoundTrip(d.fwmark);
    Le32RoundTrip(d.ifindex);
    Said(attrs, reply, 0, 6, 2, Le16(d.listenPort));
    Said(attrs, reply, 1, 7, 4, Le32(d.fwmark));
    Said(attrs, reply, 2, 1, 4, Le32(d.ifindex));
    SaidText(attrs, reply, 3, 2, d.name + [0]);
    NameBack(d.name, 15);
    if d.hasPrivateKey {
      Said(attrs, reply, 5, 3, 32, d.privateKey);
    } else {
      LatestNone(attrs, 3, 32);
    }
    if d.hasPublicKey {
      Said(attrs, reply, |reply| - 1, 4, 32, d.publicKey);
    } else {
      LatestNone(attrs, 4, 32);
    }
  }

  lemma {:induction false} SaidText(attrs: seq<Attr>, reply: seq<Attr>, k: nat, typ: nat, payload: seq<Byte>)
    requires multiset(attrs) == multiset(reply) && DistinctTypes(reply)
    requires k < |reply| && reply[k] == Attr(typ, payload) && typ < TYPE_MASK && payload != []
    ensures Latest(attrs, typ, 0) == Some(payload)
  {
    hide Latest, DistinctTypes;
    LatestOf(attrs, reply, k, 0);
  }

  lemma {:induction false} PeerRepliesBack(lists: seq<seq<Attr>>, ps: seq<Peer>, acc: seq<Peer>, sent: seq<Peer>)
    requires Shuffled(lists, ps) && (forall k :: 0 <= k < |lists| ==> |EncodeAll(lists[k])| < 0x1_0000)
    requires SamePeers(acc, sent)
    ensures var (r, ok) := ReadPeers(Nests(lists), acc); ok && SamePeers(r, sent + ps)
    decreases |ps|
  {
    hide EncodeAll, Walk, ReadPeer, Full, PeerReply;
    if ps == [] {
      assert sent + ps == sent;
    } else {
      var attrs, p := Nests(lists), ReadPeer(Walk(EncodeAll(lists[0])), NEW_PEER);
      assert attrs[0].payload == EncodeAll(lists[0]) && attrs[1..] == Nests(lists[1..]);
      PeerReplyBack(ps[0], lists[0]);
      assert p.info.hasPublicKey && SamePeer(p, ps[0]);
      hide SamePeer;
      PeerRepliesBack(lists[1..], ps[1..], acc + [p], sent + [ps[0]]);
      Associate(sent, [ps[0]], ps[1..]);
      assert [ps[0]] + ps[1..] == ps;
    }
  }

  lemma {:induction false} NestsFit(lists: seq<seq<Attr>>)
    requires |EncodeAll(Nests(lists))| < 0x1_0000
    ensures Walk(EncodeAll(Nests(lists))) == Nests(lists)
    ensures forall k :: 0 <= k < |lists| ==> |EncodeAll(lists[k])| < 0x1_0000
  {
    hide EncodeAll, Walk;
    var attrs := Nests(lists);
    WalkSmall(attrs);
    PartsFit(attrs);
    assert forall k :: 0 <= k < |lists| ==> attrs[k].payload == EncodeAll(lists[k]);
  }

  lemma NoneTheSame()
    ensures SamePeers([], [])
  {
  }

  /** The list of peers in a reply. */
  lemma {:induction false} WalkPeers(lists: seq<seq<Attr>>, ps: seq<Peer>, nest: Attr)
    requires Shuffled(lists, ps) && nest == Attr(NESTED + 8, EncodeAll(Nests(lists))) && |nest.payload| < 0x1_0000
    ensures Type(nest) == 8 && ReadPeers(Walk(nest.payload), []).1 && SamePeers(PeersOf(nest), ps)
  {
    hide EncodeAll, Walk, ReadPeers, Nests, SamePeers, Shuffled;
    NestsFit(lists);
    assert SamePeers([], []) by {
      NoneTheSame();
    }
    PeerRepliesBack(lists, ps, [], []);
    assert [] + ps == ps;
  }

  lemma {:induction false} OneListOfPeers(attrs: seq<Attr>, nest: Attr)
    requires Type(nest) == 8 && multiset(attrs)[nest] == 1
    requires forall a :: a in attrs && Type(a) == 8 ==> a == nest
    ensures AllPeers(attrs) == PeersOf(nest)
  {
    hide PeersOf, Type;
    var a, rest := attrs[0], attrs[1..];
    assert attrs == [a] + rest;
    assert multiset(attrs) == multiset([a]) + multiset(rest);
    if a == nest {
      assert nest !in multiset(rest);
      NoPeers(rest);
      assert PeersOf(nest) + [] == PeersOf(nest);
    } else {
      NotPeers(a);
      OneListOfPeers(rest, nest);
    }
  }

  lemma NotPeers(a: Attr)
    requires Type(a) != 8
    ensures PeersOf(a) == []
  {
  }

  lemma {:induction false} NoPeers(attrs: seq<Attr>)
    requires forall a :: a in attrs ==> Type(a) != 8
    ensures AllPeers(attrs) == []
  {
    if attrs != [] {
      NoPeers(attrs[1..]);
    }
  }

  /** A device with all its peers is read back, whatever the order of the attributes of the
      device and of each peer. */
  lemma {:induction false} DeviceReplyBack(d: DeviceInfo, ps: seq<Peer>, lists: seq<seq<Attr>>, attrs: seq<Attr>)
    requires d.Sized() && Shuffled(lists, ps) && multiset(attrs) == multiset(DeviceReply(d, lists))
    requires |EncodeAll(attrs)| < 0x1_0000
    ensures var (r, ok) := ReadMessage(Walk(EncodeAll(attrs)), DeviceValue(ZERO_DEVICE, []));
      ok && SameDevice(r.info, d) && SamePeers(r.peers, ps)
  {
    hide EncodeAll, Walk, ReadMessage, ReadPeers, Shuffled, SamePeers, DeviceReply, DistinctTypes, SmallTypes,
      DeviceIs, AllPeers, SameDevice;
    var reply := DeviceReply(d, lists);
    DeviceReplyTypes(d, lists);
    DeviceReplyAt(d, lists);
    var nest := reply[4];
    SameMembers(attrs, reply);
    WalkSmall(attrs);
    PartsFit(attrs);
    assert nest in attrs;
    WalkPeers(lists, ps, nest);
    OnlyOne(reply, 4, attrs);
    OneListOfPeers(attrs, nest);
    MessageRead(attrs, DeviceValue(ZERO_DEVICE, []));
    assert [] + AllPeers(attrs) == AllPeers(attrs);
    DeviceFieldsBack(d, lists, attrs, ReadMessage(attrs, DeviceValue(ZERO_DEVICE, [])).0.info);
  }

  //
  // Several messages, and the lists
  //

  function AllAttrs(payloads: seq<seq<Byte>>): seq<Attr> {
    if payloads == [] then [] else Walk(payloads[0]) + AllAttrs(payloads[1..])
  }

  lemma {:induction false} ReadMessageConcat(a: seq<Attr>, b: seq<Attr>, v: DeviceValue)
    ensures var (w, ok) := ReadMessage(a, v); ReadMessage(a + b, v) == if ok then ReadMessage(b, w) else (w, false)
    decreases |a|
  {
    hide Walk, ReadPeers, DeviceField, Type;
    if a == [] {
      assert a + b == b;
    } else {
      assert (a + b)[0] == a[0] && (a + b)[1..] == a[1..] + b;
      if Type(a[0]) == 8 {
        var (ps, ok) := ReadPeers(Walk(a[0].payload), v.peers);
        ReadMessageConcat(a[1..], b, v.(peers := ps));
      } else {
        ReadMessageConcat(a[1..], b, v.(info := DeviceField(v.info, a[0])));
      }
    }
  }

  /** How attributes are divided among messages makes no difference. */
  lemma {:induction false} MessagesAsOne(payloads: seq<seq<Byte>>, v: DeviceValue)
    ensures ReadMessages(payloads, v) == ReadMessage(AllAttrs(payloads), v)
    decreases |payloads|
  {
    hide Walk, ReadMessage;
    if payloads == [] {
      assert ReadMessage([], v) == (v, true) by {
        NothingRead(v);
      }
    } else {
      ReadMessageConcat(Walk(payloads[0]), AllAttrs(payloads[1..]), v);
      MessagesAsOne(payloads[1..], ReadMessage(Walk(payloads[0]), v).0);
    }
  }

  lemma {:induction false} NothingRead(v: DeviceValue)
    ensures ReadMessage([], v) == (v, true)
  {
  }

  lemma {:induction false} NothingToMerge(ps: seq<Peer>)
    requires NeighboursDiffer(ps)
    ensures Coalesce(ps) == ps && RepeatsAdd(ps)
  {
    if |ps| > 1 {
      assert ps[0].info.publicKey != ps[1].info.publicKey;
      assert forall k :: 0 <= k < |ps| - 1 ==> ps[1..][k] == ps[k + 1];
      NothingToMerge(ps[1..]);
    }
  }

  lemma SameNeighbours(qs: seq<Peer>, ps: seq<Peer>)
    requires SamePeers(qs, ps) && NeighboursDiffer(ps)
    ensures NeighboursDiffer(qs)
  {
  }

  /** The reading half of wg_get_device on such a reply: the device in linked lists of its own. */
  method GetReply(ghost d: DeviceInfo, ghost ps: seq<Peer>, ghost lists: seq<seq<Attr>>, attrs: seq<Attr>)
    returns (dev: Device)
    requires d.Sized() && Shuffled(lists, ps) && multiset(attrs) == multiset(DeviceReply(d, lists))
    requires |EncodeAll(attrs)| < 0x1_0000 && NeighboursDiffer(ps)
    ensures fresh(dev) && dev.Linked() && SameDevice(dev.info, d) && SamePeers(dev.Values(), ps)
  {
    hide Walk, EncodeAll, Shuffled, ReadMessage, ReadMessages, Coalesce, SamePeers, DeviceReply, SameDevice, Safe,
      NeighboursDiffer, RepeatsAdd;
    var payload := EncodeAll(attrs);
    ghost var start := DeviceValue(ZERO_DEVICE, []);
    ghost var peers := ReadMessage(Walk(payload), start).0.peers;
    DeviceReplyBack(d, ps, lists, attrs);
    OneMessage(payload, start);
    SameNeighbours(peers, ps);
    NothingToMerge(peers);
    RepeatsSafe(peers);
    SafeExactly(peers, true);
    var ok, fault;
    ok, fault, dev := GetDevice([payload]);
  }

  lemma {:induction false} OneMessage(payload: seq<Byte>, v: DeviceValue)
    ensures ReadMessages([payload], v) == ReadMessage(Walk(payload), v)
  {
    hide Walk, ReadMessage;
    assert [payload][1..] == [];
  }
}
