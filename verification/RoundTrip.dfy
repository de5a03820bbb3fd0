/** Reading back what wg_set_device wrote: parse_device over its messages and
    then coalesce_peers. */
module RoundTrip {
  import opened Words
  import opened Netlink
  import opened WgDevice
  import opened Packing
  import opened SetDevice
  import opened ReadDevice

  //
  // What survives the trip
  //

  /** Of an IPv4 address the first four bytes of the union, of an IPv6 address all. */
  function SentIp(ip: AllowedIp): AllowedIp
    requires ip.Sized()
  {
    AllowedIp(ip.family,
              if ip.family == AF_INET then ip.ip[..4] + Zeros(12)
              else if ip.family == AF_INET6 then ip.ip else Zeros(16),
              ip.cidr)
  }

  function SentIps(ips: seq<AllowedIp>): (r: seq<AllowedIp>)
    requires AllSized(ips)
    ensures |r| == |ips|
  {
    seq(|ips|, k requires 0 <= k < |ips| => SentIp(ips[k]))
  }

  /** The keys, endpoint and keepalive interval as the reader sets them. */
  function SentInfo(p: PeerInfo, first: bool): PeerInfo
    requires p.Sized()
  {
    var base := ZERO_PEER.(publicKey := p.publicKey, hasPublicKey := true);
    if !first then base
    else base.(
      presharedKey := if p.hasPresharedKey then p.presharedKey else Zeros(32),
      hasPresharedKey := p.hasPresharedKey && !IsZero(p.presharedKey),
      endpoint := if p.EndpointFamily() == AF_INET then p.endpoint[..16] + Zeros(12)
                  else if p.EndpointFamily() == AF_INET6 then p.endpoint else Zeros(28),
      keepalive := if p.hasKeepalive then p.keepalive else 0)
  }

  function SentPeer(p: Peer): Peer
    requires SizedPeer(p)
  {
    Peer(SentInfo(p.info, true), SentIps(p.ips))
  }

  function SentDevice(d: DeviceInfo): DeviceInfo
    requires d.Sized()
  {
    ZERO_DEVICE.(name := d.name,
                 privateKey := if d.hasPrivateKey then d.privateKey else Zeros(32),
                 hasPrivateKey := d.hasPrivateKey,
                 listenPort := if d.hasListenPort then d.listenPort else 0,
                 fwmark := if d.hasFwmark then d.fwmark else 0)
  }

  //
  // Sizes: what fits a 16-bit message fits at every level
  //

  lemma {:induction false} PartsFit(attrs: seq<Attr>)
    requires |EncodeAll(attrs)| < 0x1_0000 && SmallTypes(attrs)
    ensures AllFit(attrs)
    ensures forall k :: 0 <= k < |attrs| ==> |attrs[k].payload| < |EncodeAll(attrs)|
  {
    if |attrs| > 0 {
      var rest := attrs[1..];
      assert EncodeAll(attrs) == Encode(attrs[0]) + EncodeAll(rest);
      assert forall k :: 0 <= k < |rest| ==> rest[k] == attrs[k + 1];
      PartsFit(rest);
      assert forall k :: 1 <= k < |attrs| ==> attrs[k] == rest[k - 1];
    }
  }

  /** A walk over encoded attributes that fit finds exactly them. */
  lemma {:induction false} WalkSmall(attrs: seq<Attr>)
    requires |EncodeAll(attrs)| < 0x1_0000 && SmallTypes(attrs)
    ensures Walk(EncodeAll(attrs)) == attrs
  {
    PartsFit(attrs);
    WalkEncodeAll(attrs);
  }

  //
  // Allowed IPs
  //

  lemma IpBack(ip: AllowedIp)
    requires ip.Sized()
    ensures ReadIp(Walk(EncodeAll(IpFields(ip))), ZERO_IP) == SentIp(ip)
  {
    hide EncodeAll, Walk;
    IpFieldsSize(ip);
    var fields := IpFields(ip);
    WalkSmall(fields);
    Le16RoundTrip(ip.family);
    var ip1 := ZERO_IP.(family := ip.family);
    assert IpField(ZERO_IP, fields[0]) == ip1;
    var cidr := Attr(3, [ip.cidr]);
    if ip.family == AF_INET || ip.family == AF_INET6 {
      assert fields[1..][1..] == [cidr] && [cidr][1..] == [];
      var ip2 := IpField(ip1, fields[1]);
      assert ip.family == AF_INET ==> ip2.ip == ip.ip[..4] + Zeros(12) by { assert Zeros(16)[4..] == Zeros(12); }
      assert ReadIp([cidr], ip2) == ReadIp([], IpField(ip2, cidr));
    } else {
      assert fields[1..] == [cidr] && [cidr][1..] == [];
      assert ReadIp([cidr], ip1) == ReadIp([], IpField(ip1, cidr));
    }
  }

  /** What the reader gets of a list of allowed IPs: all up to the first illegal one, which it keeps. */
  function Heard(ips: seq<AllowedIp>): (r: seq<AllowedIp>)
    requires AllSized(ips)
  {
    if ips == [] then [] else [SentIp(ips[0])] + if ips[0].Legal() then Heard(ips[1..]) else []
  }

  predicate AllLegal(ips: seq<AllowedIp>) {
    forall k :: 0 <= k < |ips| ==> ips[k].Legal()
  }

  lemma LegalCons(ips: seq<AllowedIp>)
    requires ips != []
    ensures AllLegal(ips) <==> ips[0].Legal() && AllLegal(ips[1..])
  {
    var tail := ips[1..];
    assert forall k :: 1 <= k < |ips| ==> ips[k] == tail[k - 1];
    assert forall k :: 0 <= k < |tail| ==> tail[k] == ips[k + 1];
  }

  lemma IpAttrsCons(ips: seq<AllowedIp>)
    requires AllSized(ips) && ips != []
    ensures IpAttrs(ips)[0] == IpAttr(ips[0]) && IpAttrs(ips)[1..] == IpAttrs(ips[1..])
  {
  }

  lemma IpAttrBack(ips: seq<AllowedIp>, a: Attr, rest: seq<Attr>)
    requires AllSized(ips) && ips != [] && IpAttrs(ips)[0] == a && IpAttrs(ips)[1..] == rest
    ensures ReadIp(Walk(a.payload), ZERO_IP) == SentIp(ips[0]) && AllSized(ips[1..]) && rest == IpAttrs(ips[1..])
  {
    IpBack(ips[0]);
    IpAttrsCons(ips);
  }

  lemma {:induction false} ReadIpsCons(a: Attr, rest: seq<Attr>, acc: seq<AllowedIp>, ip: AllowedIp)
    requires ReadIp(Walk(a.payload), ZERO_IP) == ip
    ensures ReadIps([a] + rest, acc) == if ip.Legal() then ReadIps(rest, acc + [ip]) else (acc + [ip], false)
  {
    assert ([a] + rest)[1..] == rest;
  }

  lemma {:induction false} IpsBack(ips: seq<AllowedIp>, acc: seq<AllowedIp>)
    requires AllSized(ips)
    ensures ReadIps(IpAttrs(ips), acc) == (acc + Heard(ips), AllLegal(ips))
  {
    if ips == [] {
      assert acc + [] == acc;
    } else {
      hide Walk, ReadIps, ReadIp, IpAttrs, IpAttr, AllLegal;
      var attrs, ip, more := IpAttrs(ips), SentIp(ips[0]), ips[1..];
      var a, rest := attrs[0], attrs[1..];
      assert attrs == [a] + rest;
      IpAttrBack(ips, a, rest);
      ReadIpsCons(a, rest, acc, ip);
      LegalCons(ips);
      HeardCons(ips);
      hide Heard, SentIp;
      if ip.Legal() {
        IpsBack(more, acc + [ip]);
        Associate(acc, [ip], Heard(more));
      }
    }
  }

  lemma {:induction false} HeardCons(ips: seq<AllowedIp>)
    requires AllSized(ips) && ips != []
    ensures var ip := SentIp(ips[0]);
      (ip.Legal() <==> ips[0].Legal()) && Heard(ips) == if ip.Legal() then [ip] + Heard(ips[1..]) else [ip]
  {
  }

  //
  // Peers
  //

  lemma {:induction false} FieldsBack(p: PeerInfo, first: bool, tail: seq<Attr>)
    requires p.Sized()
    ensures ReadPeer(PeerFields(p, first) + tail, NEW_PEER) == ReadPeer(tail, Peer(SentInfo(p, first), []))
  {
    hide ReadPeer, OneTimeAttrs;
    var key, flags := [Attr(1, p.publicKey)], FlagAttrs(FlagWord(p, first));
    var once := if first then OneTimeAttrs(p) else [];
    assert PeerFields(p, first) == key + once + flags;
    Associate(key + once, flags, tail);
    Associate(key, once, flags + tail);
    KeyBack(p, once + (flags + tail));
    if first {
      OnceBack(p, flags + tail);
    } else {
      assert once + (flags + tail) == flags + tail;
    }
    FlagsBack(FlagWord(p, first), tail, Peer(SentInfo(p, first), []));
  }

  function FlagAttrs(word: nat): seq<Attr>
    requires word < 4
  {
    Opt(word > 0, Attr(3, Le32(word)))
  }

  /** The reader ignores the flags. */
  lemma {:induction false} FlagsBack(word: nat, tail: seq<Attr>, q: Peer)
    requires word < 4 && |q.info.endpoint| == 28
    ensures ReadPeer(FlagAttrs(word) + tail, q) == ReadPeer(tail, q)
  {
    ReadOpt(word > 0, Attr(3, Le32(word)), tail, q);
  }

  lemma {:induction false} KeyBack(p: PeerInfo, tail: seq<Attr>)
    requires p.Sized()
    ensures ReadPeer([Attr(1, p.publicKey)] + tail, NEW_PEER) == ReadPeer(tail, Peer(SentInfo(p, false), []))
  {
    ReadOne(Attr(1, p.publicKey), tail, NEW_PEER);
  }

  /** An attribute that is not a list of allowed IPs. */
  lemma {:induction false} ReadOne(a: Attr, tail: seq<Attr>, p: Peer)
    requires Type(a) != 9 && |p.info.endpoint| == 28
    ensures ReadPeer([a] + tail, p) == ReadPeer(tail, p.(info := PeerField(p.info, a)))
  {
    assert ([a] + tail)[1..] == tail;
  }

  lemma {:induction false} ReadOpt(c: bool, a: Attr, tail: seq<Attr>, p: Peer)
    requires Type(a) != 9 && |p.info.endpoint| == 28
    ensures ReadPeer(Opt(c, a) + tail, p) == ReadPeer(tail, if c then p.(info := PeerField(p.info, a)) else p)
  {
    if c {
      ReadOne(a, tail, p);
    } else {
      assert Opt(c, a) + tail == tail;
    }
  }

  lemma {:induction false} OnceBack(p: PeerInfo, tail: seq<Attr>)
    requires p.Sized()
    ensures ReadPeer(OneTimeAttrs(p) + tail, Peer(SentInfo(p, false), []))
         == ReadPeer(tail, Peer(SentInfo(p, true), []))
  {
    var p0 := Peer(SentInfo(p, false), []);
    var keepalive := Opt(p.hasKeepalive, Attr(5, Le16(p.keepalive)));
    assert OneTimeAttrs(p) + tail
        == Opt(p.hasPresharedKey, Attr(2, p.presharedKey)) + (EndpointAttrs(p) + (keepalive + tail));
    ReadOpt(p.hasPresharedKey, Attr(2, p.presharedKey), EndpointAttrs(p) + (keepalive + tail), p0);
    var p1 := if p.hasPresharedKey then p0.(info := PeerField(p0.info, Attr(2, p.presharedKey))) else p0;
    EndpointBack(p, keepalive + tail, p1);
    Le16RoundTrip(p.keepalive);
    var p2 := p1.(info := p1.info.(endpoint := SentInfo(p, true).endpoint));
    ReadOpt(p.hasKeepalive, Attr(5, Le16(p.keepalive)), tail, p2);
  }

  lemma {:induction false} EndpointBack(p: PeerInfo, tail: seq<Attr>, q: Peer)
    requires p.Sized() && q.info.endpoint == Zeros(28)
    ensures ReadPeer(EndpointAttrs(p) + tail, q)
         == ReadPeer(tail, q.(info := q.info.(endpoint := SentInfo(p, true).endpoint)))
  {
    if p.EndpointFamily() == AF_INET {
      assert Zeros(28)[16..] == Zeros(12);
      assert GetLe16(p.endpoint[..16]) == GetLe16(p.endpoint);
      ReadOne(Attr(4, p.endpoint[..16]), tail, q);
    } else if p.EndpointFamily() == AF_INET6 {
      ReadOne(Attr(4, p.endpoint), tail, q);
    } else {
      assert EndpointAttrs(p) + tail == tail;
    }
  }

  /** What the reader makes of one fragment. */
  function HeardFrag(f: Frag): Peer
    requires SizedFrag(f)
  {
    Peer(SentInfo(f.info, f.first), Heard(f.ips))
  }

  /** The attributes of a peer end with its allowed IPs. */
  lemma {:induction false} NestBack(ips: seq<AllowedIp>, p: PeerInfo)
    requires AllSized(ips) && |p.endpoint| == 28 && |EncodeAll(IpAttrs(ips))| < 0x1_0000
    ensures ReadPeer([Attr(NESTED + 9, EncodeAll(IpAttrs(ips)))], Peer(p, [])) == Peer(p, Heard(ips))
  {
    hide EncodeAll, Walk, ReadIps, Heard;
    var nest := [Attr(NESTED + 9, EncodeAll(IpAttrs(ips)))];
    assert Type(nest[0]) == 9 && nest[1..] == [];
    WalkSmall(IpAttrs(ips));
    IpsBack(ips, []);
    assert [] + Heard(ips) == Heard(ips);
    assert ReadPeer(nest[1..], Peer(p, Heard(ips))) == Peer(p, Heard(ips));
  }

  predicate SmallTypes(attrs: seq<Attr>) {
    forall k :: 0 <= k < |attrs| ==> attrs[k].typ < 0x1_0000
  }

  lemma PeerTypes(p: PeerInfo, first: bool)
    requires p.Sized()
    ensures SmallTypes(PeerFields(p, first))
  {
  }

  /** A walk over one attribute behind others finds it with a payload that fits. */
  lemma {:induction false} WalkLast(fields: seq<Attr>, last: Attr)
    requires SmallTypes(fields) && last.typ < 0x1_0000 && |EncodeAll(fields + [last])| < 0x1_0000
    ensures Walk(EncodeAll(fields + [last])) == fields + [last] && |last.payload| < 0x1_0000
  {
    var all := fields + [last];
    WalkSmall(all);
    PartsFit(all);
    assert all[|fields|] == last;
  }

  lemma FragBack(f: Frag)
    requires SizedFrag(f) && |FragAttr(f).payload| < 0x1_0000
    ensures ReadPeer(Walk(FragAttr(f).payload), NEW_PEER) == HeardFrag(f)
  {
    var fields, sent := PeerFields(f.info, f.first), SentInfo(f.info, f.first);
    PeerTypes(f.info, f.first);
    if f.nest {
      var nest := Attr(NESTED + 9, EncodeAll(IpAttrs(f.ips)));
      WalkLast(fields, nest);
      FieldsBack(f.info, f.first, [nest]);
      NestBack(f.ips, sent);
    } else {
      assert fields + [] == fields;
      WalkSmall(fields);
      FieldsBack(f.info, f.first, []);
    }
  }

  function HeardFrags(fs: seq<Frag>): (r: seq<Peer>)
    requires SizedFrags(fs)
    ensures |r| == |fs|
  {
    seq(|fs|, k requires 0 <= k < |fs| => HeardFrag(fs[k]))
  }

  lemma FragsCons(fs: seq<Frag>)
    requires SizedFrags(fs) && fs != []
    ensures SizedFrags(fs[1..]) && FragAttrs(fs) == [FragAttr(fs[0])] + FragAttrs(fs[1..])
    ensures HeardFrags(fs) == [HeardFrag(fs[0])] + HeardFrags(fs[1..])
  {
  }

  lemma {:induction false} ReadPeersCons(a: Attr, rest: seq<Attr>, acc: seq<Peer>, p: Peer)
    requires ReadPeer(Walk(a.payload), NEW_PEER) == p && p.info.hasPublicKey
    ensures ReadPeers([a] + rest, acc) == ReadPeers(rest, acc + [p])
  {
    assert ([a] + rest)[1..] == rest;
  }

  lemma HasKey(f: Frag)
    requires SizedFrag(f)
    ensures HeardFrag(f).info.hasPublicKey
  {
  }

  lemma {:induction false} FragsBack(fs: seq<Frag>, acc: seq<Peer>)
    requires SizedFrags(fs) && forall k :: 0 <= k < |fs| ==> |FragAttrs(fs)[k].payload| < 0x1_0000
    ensures ReadPeers(FragAttrs(fs), acc) == (acc + HeardFrags(fs), true)
  {
    hide FragAttr, HeardFrag, ReadPeer, Walk;
    if fs == [] {
      assert acc + HeardFrags(fs) == acc;
    } else {
      var f, rest := fs[0], fs[1..];
      FragsCons(fs);
      HasKey(f);
      hide ReadPeers;
      assert FragAttrs(fs)[0] == FragAttr(f);
      FragBack(f);
      ReadPeersCons(FragAttr(f), FragAttrs(rest), acc, HeardFrag(f));
      assert forall k :: 0 <= k < |rest| ==> FragAttrs(rest)[k] == FragAttrs(fs)[k + 1];
      FragsBack(rest, acc + [HeardFrag(f)]);
      assert acc + [HeardFrag(f)] + HeardFrags(rest) == acc + HeardFrags(fs);
    }
  }

  //
  // Messages
  //

  lemma {:induction false} NameBack(name: seq<Byte>, n: nat)
    requires |name| <= n && 0 !in name
    ensures CString(name + [0], n) == name
  {
    if name != [] {
      assert (name + [0])[1..] == name[1..] + [0];
      NameBack(name[1..], n - 1);
    }
  }

  lemma {:induction false} ReadField(c: bool, a: Attr, tail: seq<Attr>, d: DeviceValue)
    requires Type(a) != 8
    ensures ReadMessage(Opt(c, a) + tail, d) == ReadMessage(tail, if c then d.(info := DeviceField(d.info, a)) else d)
  {
    if c {
      assert ([a] + tail)[1..] == tail;
    } else {
      assert Opt(c, a) + tail == tail;
    }
  }

  /** The optional device attributes, those of the first message. */
  lemma {:induction false} OptionsBack(info: DeviceInfo, first: bool, tail: seq<Attr>, d: DeviceValue)
    requires info.Sized() && d.info == if first then ZERO_DEVICE.(name := info.name) else SentDevice(info)
    ensures ReadMessage(Opt(first && info.hasPrivateKey, Attr(3, info.privateKey))
                        + (Opt(first && info.hasListenPort, Attr(6, Le16(info.listenPort)))
                           + (Opt(first && info.hasFwmark, Attr(7, Le32(info.fwmark)))
                              + (Opt(first && info.replacePeers, Attr(5, Le32(1))) + tail))), d)
         == ReadMessage(tail, d.(info := SentDevice(info)))
  {
    var t4 := Opt(first && info.replacePeers, Attr(5, Le32(1))) + tail;
    var t3 := Opt(first && info.hasFwmark, Attr(7, Le32(info.fwmark))) + t4;
    var t2 := Opt(first && info.hasListenPort, Attr(6, Le16(info.listenPort))) + t3;
    var sent := SentDevice(info);
    ReadField(first && info.hasPrivateKey, Attr(3, info.privateKey), t2, d);
    var d2 := d.(info := d.info.(privateKey := sent.privateKey, hasPrivateKey := sent.hasPrivateKey));
    PortBack(first && info.hasListenPort, info.listenPort, t3, d2);
    var d3 := d2.(info := d2.info.(listenPort := sent.listenPort));
    MarkBack(first && info.hasFwmark, info.fwmark, t4, d3);
    ReadField(first && info.replacePeers, Attr(5, Le32(1)), tail, d.(info := sent));
  }

  lemma {:induction false} PortBack(c: bool, port: nat, tail: seq<Attr>, d: DeviceValue)
    requires port < 0x1_0000
    ensures ReadMessage(Opt(c, Attr(6, Le16(port))) + tail, d)
         == ReadMessage(tail, if c then d.(info := d.info.(listenPort := port)) else d)
  {
    Le16RoundTrip(port);
    ReadField(c, Attr(6, Le16(port)), tail, d);
  }

  lemma {:induction false} MarkBack(c: bool, mark: nat, tail: seq<Attr>, d: DeviceValue)
    requires mark < 0x1_0000_0000
    ensures ReadMessage(Opt(c, Attr(7, Le32(mark))) + tail, d)
         == ReadMessage(tail, if c then d.(info := d.info.(fwmark := mark)) else d)
  {
    Le32RoundTrip(mark);
    ReadField(c, Attr(7, Le32(mark)), tail, d);
  }

  lemma Regroup(a: seq<Attr>, b: seq<Attr>, c: seq<Attr>, d: seq<Attr>, e: seq<Attr>, f: seq<Attr>)
    ensures a + b + c + d + e + f == a + (b + (c + (d + (e + f))))
  {
  }

  /** Device attributes: all of them in the first message, the name alone in a later one. */
  lemma {:induction false} DeviceBack(info: DeviceInfo, first: bool, tail: seq<Attr>, d: DeviceValue)
    requires info.Sized() && d.info == if first then ZERO_DEVICE else SentDevice(info)
    ensures ReadMessage(DeviceFields(info, first) + tail, d) == ReadMessage(tail, d.(info := SentDevice(info)))
  {
    var name := Attr(2, info.name + [0]);
    var t4 := Opt(first && info.replacePeers, Attr(5, Le32(1))) + tail;
    var t3 := Opt(first && info.hasFwmark, Attr(7, Le32(info.fwmark))) + t4;
    var t2 := Opt(first && info.hasListenPort, Attr(6, Le16(info.listenPort))) + t3;
    var t1 := Opt(first && info.hasPrivateKey, Attr(3, info.privateKey)) + t2;
    Regroup([name], Opt(first && info.hasPrivateKey, Attr(3, info.privateKey)),
            Opt(first && info.hasListenPort, Attr(6, Le16(info.listenPort))),
            Opt(first && info.hasFwmark, Attr(7, Le32(info.fwmark))),
            Opt(first && info.replacePeers, Attr(5, Le32(1))), tail);
    NameBack(info.name, 15);
    ReadField(true, name, t1, d);
    OptionsBack(info, first, tail, d.(info := d.info.(name := info.name)));
  }

  lemma DeviceTypes(d: DeviceInfo, first: bool)
    requires d.Sized()
    ensures SmallTypes(DeviceFields(d, first))
  {
  }

  /** The nest of peers ends a message. */
  lemma {:induction false} PeersBack(fs: seq<Frag>, d: DeviceValue)
    requires SizedFrags(fs) && |EncodeAll(FragAttrs(fs))| < 0x1_0000
    ensures ReadMessage([Attr(NESTED + 8, EncodeAll(FragAttrs(fs)))], d)
         == (d.(peers := d.peers + HeardFrags(fs)), true)
  {
    hide EncodeAll, Walk, ReadPeers, HeardFrag;
    var nest, attrs := [Attr(NESTED + 8, EncodeAll(FragAttrs(fs)))], FragAttrs(fs);
    assert Type(nest[0]) == 8 && nest[1..] == [];
    WalkSmall(attrs);
    PartsFit(attrs);
    FragsBack(fs, d.peers);
    var d' := d.(peers := d.peers + HeardFrags(fs));
    assert ReadMessage(nest[1..], d') == (d', true);
  }

  /** One message: the reader adds its fragments to the device. */
  lemma {:induction false} MessageBack(msg: seq<Byte>, buflen: nat, info: DeviceInfo, first: bool, anyPeers: bool,
                                       fs: seq<Frag>, d: DeviceValue)
    requires buflen < 0x1_0000 && info.Sized() && Carries(msg, buflen, info, first, anyPeers, fs)
    requires (anyPeers || fs == []) && d.info == if first then ZERO_DEVICE else SentDevice(info)
    ensures ReadMessage(Walk(Payload(msg)), d) == (DeviceValue(SentDevice(info), d.peers + HeardFrags(fs)), true)
  {
    var fields := DeviceFields(info, first);
    DeviceTypes(info, first);
    if anyPeers {
      var nest := Attr(NESTED + 8, EncodeAll(FragAttrs(fs)));
      WalkLast(fields, nest);
      DeviceBack(info, first, [nest], d);
      PeersBack(fs, d.(info := SentDevice(info)));
    } else {
      assert fields + [] == fields && d.peers + HeardFrags(fs) == d.peers;
      WalkSmall(fields);
      DeviceBack(info, first, [], d);
    }
  }

  lemma {:induction false} ReadMessagesSnoc(payloads: seq<seq<Byte>>, last: seq<Byte>, d: DeviceValue)
    ensures var (d', ok) := ReadMessages(payloads, d);
      ReadMessages(payloads + [last], d) == if ok then ReadMessage(Walk(last), d') else (d', false)
    decreases |payloads|
  {
    var all := payloads + [last];
    if payloads == [] {
      assert all[1..] == [];
    } else {
      assert all[0] == payloads[0] && all[1..] == payloads[1..] + [last];
      ReadMessagesSnoc(payloads[1..], last, ReadMessage(Walk(payloads[0]), d).0);
    }
  }

  function Payloads(messages: seq<seq<Byte>>): (r: seq<seq<Byte>>)
    requires forall i :: 0 <= i < |messages| ==> |messages[i]| >= MESSAGE_HEADER
    ensures |r| == |messages|
  {
    seq(|messages|, i requires 0 <= i < |messages| => Payload(messages[i]))
  }

  lemma PayloadsSnoc(messages: seq<seq<Byte>>, m: nat)
    requires m < |messages| && forall i :: 0 <= i < |messages| ==> |messages[i]| >= MESSAGE_HEADER
    ensures Payloads(messages)[..m + 1] == Payloads(messages)[..m] + [Payload(messages[m])]
  {
  }

  lemma FlattenSnoc(frags: seq<seq<Frag>>, n: nat)
    requires n < |frags| && SizedFrags(Flatten(frags[..n])) && SizedFrags(frags[n])
    ensures SizedFrags(Flatten(frags[..n + 1]))
    ensures HeardFrags(Flatten(frags[..n + 1])) == HeardFrags(Flatten(frags[..n])) + HeardFrags(frags[n])
  {
    assert frags[..n + 1][..n] == frags[..n];
    var a, b := Flatten(frags[..n]), frags[n];
    assert Flatten(frags[..n + 1]) == a + b;
    assert forall k :: 0 <= k < |b| ==> (a + b)[|a| + k] == b[k];
  }

  /** All messages: the reader ends with one peer for every fragment. */
  lemma {:induction false} MessagesBack(messages: seq<seq<Byte>>, buflen: nat, info: DeviceInfo, anyPeers: bool,
                                        frags: seq<seq<Frag>>, n: nat)
    requires buflen < 0x1_0000 && AllCarry(messages, buflen, info, anyPeers, frags) && n <= |frags|
    requires anyPeers || forall i :: 0 <= i < |frags| ==> frags[i] == []
    ensures SizedFrags(Flatten(frags[..n]))
    ensures ReadMessages(Payloads(messages)[..n], DeviceValue(ZERO_DEVICE, []))
         == (DeviceValue(if n == 0 then ZERO_DEVICE else SentDevice(info), HeardFrags(Flatten(frags[..n]))), true)
  {
    hide Walk, HeardFrag, MessageAttrs, SentDevice, SizedFrag;
    if n == 0 {
      assert HeardFrags(Flatten(frags[..0])) == [];
    } else {
      hide ReadMessages, HeardFrags, Flatten;
      var m := n - 1;
      MessagesBack(messages, buflen, info, anyPeers, frags, m);
      assert Carries(messages[m], buflen, info, m == 0, anyPeers, frags[m]);
      FlattenSnoc(frags, m);
      var d := DeviceValue(if m == 0 then ZERO_DEVICE else SentDevice(info), HeardFrags(Flatten(frags[..m])));
      MessageBack(messages[m], buflen, info, m == 0, anyPeers, frags[m], d);
      PayloadsSnoc(messages, m);
      ReadMessagesSnoc(Payloads(messages)[..m], Payload(messages[m]), DeviceValue(ZERO_DEVICE, []));
    }
  }
}
