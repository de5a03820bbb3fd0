/** The fragments of wg_set_device as values: what they carry, which of them a
    message has room for, and that joined in order they are the peer list. */
module Packing {
  import opened Options
  import opened Words
  import opened Netlink
  import opened WgDevice

  //
  // What a message carries
  //

  /** One appearance of a peer in a message: the first carries its one-time
      attributes, and each carries some of its allowed IPs. */
  datatype Frag = Frag(info: PeerInfo, first: bool, nest: bool, ips: seq<AllowedIp>)

  /** An attribute put under a condition. */
  function Opt(c: bool, a: Attr): seq<Attr> {
    if c then [a] else []
  }

  function IpFields(ip: AllowedIp): seq<Attr>
    requires ip.Sized()
  {
    [Attr(1, Le16(ip.family))]
    + (if ip.family == AF_INET then [Attr(2, ip.ip[..4])] else if ip.family == AF_INET6 then [Attr(2, ip.ip)] else [])
    + [Attr(3, [ip.cidr])]
  }

  function IpAttr(ip: AllowedIp): Attr
    requires ip.Sized()
  {
    Attr(NESTED, EncodeAll(IpFields(ip)))
  }

  predicate AllSized(ips: seq<AllowedIp>) {
    forall k :: 0 <= k < |ips| ==> ips[k].Sized()
  }

  function IpAttrs(ips: seq<AllowedIp>): (r: seq<Attr>)
    requires AllSized(ips)
    ensures |r| == |ips|
  {
    seq(|ips|, k requires 0 <= k < |ips| => IpAttr(ips[k]))
  }

  function EndpointAttrs(p: PeerInfo): seq<Attr>
    requires p.Sized()
  {
    if p.EndpointFamily() == AF_INET then [Attr(4, p.endpoint[..16])]
    else if p.EndpointFamily() == AF_INET6 then [Attr(4, p.endpoint)]
    else []
  }

  /** The flag word sent for a fragment; replacing allowed IPs is asked for once. */
  function FlagWord(p: PeerInfo, first: bool): nat {
    (if p.removeMe then 1 else 0) + (if first && p.replaceAllowedIps then 2 else 0)
  }

  function OneTimeAttrs(p: PeerInfo): seq<Attr>
    requires p.Sized()
  {
    Opt(p.hasPresharedKey, Attr(2, p.presharedKey)) + EndpointAttrs(p) + Opt(p.hasKeepalive, Attr(5, Le16(p.keepalive)))
  }

  function PeerFields(p: PeerInfo, first: bool): seq<Attr>
    requires p.Sized()
  {
    [Attr(1, p.publicKey)]
    + (if first then OneTimeAttrs(p) else [])
    + Opt(FlagWord(p, first) > 0, Attr(3, Le32(FlagWord(p, first))))
  }

  predicate SizedFrag(f: Frag) {
    f.info.Sized() && AllSized(f.ips) && (f.nest || f.ips == [])
  }

  predicate SizedFrags(fs: seq<Frag>) {
    forall k :: 0 <= k < |fs| ==> SizedFrag(fs[k])
  }

  function FragAttr(f: Frag): Attr
    requires SizedFrag(f)
  {
    Attr(NESTED, EncodeAll(PeerFields(f.info, f.first)
                           + if f.nest then [Attr(NESTED + 9, EncodeAll(IpAttrs(f.ips)))] else []))
  }

  function FragAttrs(fs: seq<Frag>): (r: seq<Attr>)
    requires SizedFrags(fs)
    ensures |r| == |fs|
  {
    seq(|fs|, k requires 0 <= k < |fs| => FragAttr(fs[k]))
  }

  function DeviceFields(d: DeviceInfo, first: bool): seq<Attr>
    requires d.Sized()
  {
    [Attr(2, d.name + [0])]
    + Opt(first && d.hasPrivateKey, Attr(3, d.privateKey))
    + Opt(first && d.hasListenPort, Attr(6, Le16(d.listenPort)))
    + Opt(first && d.hasFwmark, Attr(7, Le32(d.fwmark)))
    + Opt(first && d.replacePeers, Attr(5, Le32(1)))
  }

  /** The attributes of a message: those of the device, then a nest of fragments
      unless the device has no peer at all. */
  function MessageAttrs(d: DeviceInfo, first: bool, anyPeers: bool, fs: seq<Frag>): seq<Attr>
    requires d.Sized() && SizedFrags(fs)
  {
    DeviceFields(d, first) + if anyPeers then [Attr(NESTED + 8, EncodeAll(FragAttrs(fs)))] else []
  }

  //
  // Sizes
  //

  lemma OptionalSize(c: bool, a: Attr)
    ensures |EncodeAll(Opt(c, a))| == if c then 4 + Align(|a.payload|) else 0
  {
    EncodeAllOne(a);
  }

  lemma IpFieldsSize(ip: AllowedIp)
    requires ip.Sized()
    ensures |EncodeAll(IpFields(ip))| <= 36
  {
    var family, cidr := [Attr(1, Le16(ip.family))], [Attr(3, [ip.cidr])];
    var address :=
      if ip.family == AF_INET then [Attr(2, ip.ip[..4])] else if ip.family == AF_INET6 then [Attr(2, ip.ip)] else [];
    SizeConcat(family + address, cidr);
    SizeConcat(family, address);
    OptionalSize(true, family[0]);
    OptionalSize(true, cidr[0]);
    OptionalSize(ip.family == AF_INET, Attr(2, ip.ip[..4]));
    OptionalSize(true, Attr(2, ip.ip));
  }

  lemma PeerFieldsSize(p: PeerInfo, first: bool)
    requires p.Sized()
    ensures |EncodeAll(PeerFields(p, first))| <= if first then 120 else 44
  {
    var key := [Attr(1, p.publicKey)];
    var once := if first then OneTimeAttrs(p) else [];
    var word := FlagWord(p, first);
    var flags := Opt(word > 0, Attr(3, Le32(word)));
    SizeConcat(key + once, flags);
    SizeConcat(key, once);
    OptionalSize(true, key[0]);
    OptionalSize(word > 0, Attr(3, Le32(word)));
    OneTimeSize(p);
  }

  lemma OneTimeSize(p: PeerInfo)
    requires p.Sized()
    ensures |EncodeAll(OneTimeAttrs(p))| <= 76
  {
    var psk := Opt(p.hasPresharedKey, Attr(2, p.presharedKey));
    var keepalive := Opt(p.hasKeepalive, Attr(5, Le16(p.keepalive)));
    SizeConcat(psk + EndpointAttrs(p), keepalive);
    SizeConcat(psk, EndpointAttrs(p));
    OptionalSize(p.hasPresharedKey, Attr(2, p.presharedKey));
    OptionalSize(p.hasKeepalive, Attr(5, Le16(p.keepalive)));
    OptionalSize(p.EndpointFamily() == AF_INET, Attr(4, p.endpoint[..16]));
    OptionalSize(true, Attr(4, p.endpoint));
  }

  lemma DeviceFieldsSize(d: DeviceInfo, first: bool)
    requires d.Sized()
    ensures |EncodeAll(DeviceFields(d, first))| <= if first then 80 else 20
  {
    hide EncodeAll, Encode, Le16, Le32;
    SizeConcat4([Attr(2, d.name + [0])],
                Opt(first && d.hasPrivateKey, Attr(3, d.privateKey)),
                Opt(first && d.hasListenPort, Attr(6, Le16(d.listenPort))),
                Opt(first && d.hasFwmark, Attr(7, Le32(d.fwmark))),
                Opt(first && d.replacePeers, Attr(5, Le32(1))));
    EncodeAllOne(Attr(2, d.name + [0]));
    OptionalSize(first && d.hasPrivateKey, Attr(3, d.privateKey));
    OptionalSize(first && d.hasListenPort, Attr(6, Le16(d.listenPort)));
    OptionalSize(first && d.hasFwmark, Attr(7, Le32(d.fwmark)));
    OptionalSize(first && d.replacePeers, Attr(5, Le32(1)));
  }

  lemma {:induction false} SizeConcat4(s: seq<Attr>, t: seq<Attr>, u: seq<Attr>, v: seq<Attr>, w: seq<Attr>)
    ensures |EncodeAll(s + t + u + v + w)|
         == |EncodeAll(s)| + |EncodeAll(t)| + |EncodeAll(u)| + |EncodeAll(v)| + |EncodeAll(w)|
  {
    SizeConcat(s + t + u + v, w);
    SizeConcat(s + t + u, v);
    SizeConcat(s + t, u);
    SizeConcat(s, t);
  }

  lemma {:induction false} SizeConcat(s: seq<Attr>, t: seq<Attr>)
    ensures |EncodeAll(s + t)| == |EncodeAll(s)| + |EncodeAll(t)|
  {
    EncodeAllConcat(s, t);
  }

  //
  // Which part of the peer list the fragments so far make up
  //

  /** Re-joining fragments: a first fragment starts a peer, a later one extends it. */
  function Join(fs: seq<Frag>): seq<Peer> {
    if |fs| == 0 then []
    else
      var f, before := fs[|fs| - 1], Join(fs[..|fs| - 1]);
      if f.first then before + [Peer(f.info, f.ips)]
      else if |before| == 0 then []
      else before[|before| - 1 := Peer(before[|before| - 1].info, before[|before| - 1].ips + f.ips)]
  }

  /** A resumed fragment follows a fragment of the same peer and adds allowed IPs. */
  predicate Resumes(fs: seq<Frag>) {
    forall k :: 0 <= k < |fs| && !fs[k].first ==> 0 < k && fs[k - 1].info == fs[k].info && fs[k].ips != []
  }

  /** Where packing stands: at peer number peer, whose one-time attributes and
      first ip allowed IPs are out if sent holds. */
  datatype Pos = Pos(peer: nat, sent: bool, ip: nat)

  predicate ValidPos(ps: seq<Peer>, pos: Pos) {
    pos.peer <= |ps|
    && if pos.sent then pos.peer < |ps| && pos.ip < |ps[pos.peer].ips| else pos.ip == 0
  }

  function Emitted(ps: seq<Peer>, pos: Pos): seq<Peer>
    requires ValidPos(ps, pos)
  {
    ps[..pos.peer] + if pos.sent then [Peer(ps[pos.peer].info, ps[pos.peer].ips[..pos.ip])] else []
  }

  /** The fragments fs carry everything before pos exactly once, in order. */
  predicate Covered(ps: seq<Peer>, fs: seq<Frag>, pos: Pos) {
    ValidPos(ps, pos) && Join(fs) == Emitted(ps, pos) && Resumes(fs)
    && (pos.sent ==> 0 < |fs| && fs[|fs| - 1].info == ps[pos.peer].info)
  }

  function NextPos(ps: seq<Peer>, pos: Pos, to: nat): Pos
    requires pos.peer < |ps|
  {
    if to < |ps[pos.peer].ips| then Pos(pos.peer, true, to) else Pos(pos.peer + 1, false, 0)
  }

  /** Sending a peer up to allowed IP number to. */
  lemma CoveredStep(ps: seq<Peer>, fs: seq<Frag>, pos: Pos, f: Frag, to: nat)
    requires Covered(ps, fs, pos) && pos.peer < |ps|
    requires pos.ip <= to <= |ps[pos.peer].ips| && (pos.sent ==> pos.ip < to)
    requires f.info == ps[pos.peer].info && f.first == !pos.sent && f.ips == ps[pos.peer].ips[pos.ip..to]
    ensures Covered(ps, fs + [f], NextPos(ps, pos, to))
  {
    var fs', p := fs + [f], ps[pos.peer];
    assert fs'[..|fs|] == fs;
    var upTo := Peer(p.info, p.ips[..to]);
    assert pos.sent ==> p.ips[..pos.ip] + p.ips[pos.ip..to] == p.ips[..to];
    assert Join(fs') == ps[..pos.peer] + [upTo];
    if to == |p.ips| {
      assert upTo == p && ps[..pos.peer + 1] == ps[..pos.peer] + [p];
    }
  }

  predicate SizedPeer(p: Peer) {
    p.info.Sized() && AllSized(p.ips)
  }

  predicate SizedPeers(ps: seq<Peer>) {
    forall k :: 0 <= k < |ps| ==> SizedPeer(ps[k])
  }

  /** Strict progress through the peers: fewer peers, or the one-time attributes
      are out, or fewer allowed IPs. */
  predicate Further(pos: Pos, pos': Pos) {
    pos.peer < pos'.peer
    || (pos.peer == pos'.peer && pos'.sent && (pos.sent ==> pos.ip < pos'.ip))
  }

  function Flatten(fss: seq<seq<Frag>>): seq<Frag> {
    if |fss| == 0 then [] else Flatten(fss[..|fss| - 1]) + fss[|fss| - 1]
  }

  /** Allowed IPs of the current peer still to send, once its one-time attributes are out. */
  function IpsLeft(ps: seq<Peer>, pos: Pos): int {
    if pos.sent && pos.peer < |ps| then |ps[pos.peer].ips| - pos.ip else 0
  }

  //
  // What a message has room for
  //

  /** The allowed IPs from number at on, as many as fit behind a given length. */
  function IpsFit(ips: seq<AllowedIp>, at: nat, len: nat, buflen: nat): (to: nat)
    requires AllSized(ips) && at <= |ips|
    ensures at <= to <= |ips|
    decreases |ips| - at
  {
    if at < |ips| && len + |Encode(IpAttr(ips[at]))| <= buflen
    then IpsFit(ips, at + 1, len + |Encode(IpAttr(ips[at]))|, buflen)
    else at
  }

  /** The length once a peer is opened and its attributes are put. */
  function HeaderEnd(p: PeerInfo, first: bool, len: nat): nat
    requires p.Sized()
  {
    len + 4 + |EncodeAll(PeerFields(p, first))|
  }

  /** The next fragment of a peer and the allowed IP it ends before, or None when not
      even the attributes before the allowed IPs fit. */
  function NextFrag(p: Peer, first: bool, at: nat, len: nat, buflen: nat): (r: Option<(Frag, nat)>)
    requires SizedPeer(p) && at <= |p.ips| && (first ==> at == 0) && (!first ==> at < |p.ips|)
    ensures r.Some? ==> SizedFrag(r.value.0) && at <= r.value.1 <= |p.ips| && r.value.0.ips == p.ips[at..r.value.1]
    ensures r.Some? ==> r.value.0.info == p.info && r.value.0.first == first
  {
    var end := HeaderEnd(p.info, first, len);
    if end > buflen then None
    else if p.ips == [] || end + 4 > buflen then Some((Frag(p.info, first, false, []), at))
    else
      var to := IpsFit(p.ips, at, end + 4, buflen);
      Some((Frag(p.info, first, true, p.ips[at..to]), to))
  }

  /** The fragments of one message from a position on, and where they end. */
  function Fill(ps: seq<Peer>, pos: Pos, len: nat, buflen: nat): (r: (seq<Frag>, Pos))
    requires SizedPeers(ps) && ValidPos(ps, pos)
    ensures SizedFrags(r.0) && ValidPos(ps, r.1)
    decreases |ps| - pos.peer
  {
    if pos.peer == |ps| then ([], pos)
    else
      match NextFrag(ps[pos.peer], !pos.sent, pos.ip, len, buflen)
      case None => ([], pos)
      case Some((f, to)) =>
        var next := NextPos(ps, pos, to);
        if next.sent then ([f], next)
        else
          var (fs, end) := Fill(ps, next, len + |Encode(FragAttr(f))|, buflen);
          ([f] + fs, end)
  }

  /** Where the fragments of a message begin. */
  function FirstFrag(info: DeviceInfo, first: bool): nat
    requires info.Sized()
  {
    MESSAGE_HEADER + |EncodeAll(DeviceFields(info, first))| + 4
  }

  /** The fragments of all messages from a position on. */
  function FragmentsFrom(info: DeviceInfo, ps: seq<Peer>, pos: Pos, first: bool, buflen: nat): (r: seq<seq<Frag>>)
    requires info.Sized() && SizedPeers(ps) && ValidPos(ps, pos)
    ensures |r| > 0
    decreases |ps| - pos.peer, !pos.sent, IpsLeft(ps, pos)
  {
    var (fs, end) := Fill(ps, pos, FirstFrag(info, first), buflen);
    if end.peer < |ps| && Further(pos, end) then [fs] + FragmentsFrom(info, ps, end, false, buflen) else [fs]
  }

  /** The fragments that a device is sent in, a function of what a caller has. */
  function Fragments(info: DeviceInfo, ps: seq<Peer>, buflen: nat): (r: seq<seq<Frag>>)
    requires info.Sized() && SizedPeers(ps)
    ensures |r| > 0
  {
    FragmentsFrom(info, ps, Pos(0, false, 0), true, buflen)
  }

  //
  // They make progress and cover the peers
  //

  /** 40 bytes hold any allowed IP. */
  lemma {:induction false} SomeIpFits(ips: seq<AllowedIp>, at: nat, len: nat, buflen: nat)
    requires AllSized(ips) && at < |ips| && len + 40 <= buflen
    ensures at < IpsFit(ips, at, len, buflen)
  {
    hide EncodeAll, Encode;
    IpFieldsSize(ips[at]);
  }

  lemma IpAttrsMore(ips: seq<AllowedIp>, at: nat, k: nat)
    requires AllSized(ips) && at < k <= |ips|
    ensures |EncodeAll(IpAttrs(ips[at..k]))| == |Encode(IpAttr(ips[at]))| + |EncodeAll(IpAttrs(ips[at + 1..k]))|
  {
    hide IpAttr, Encode;
    var attrs := IpAttrs(ips[at..k]);
    assert attrs[0] == IpAttr(ips[at]) && attrs[1..] == IpAttrs(ips[at + 1..k]);
  }

  /** As many allowed IPs are put as there is room for. */
  lemma {:induction false} IpsFitExactly(ips: seq<AllowedIp>, at: nat, len: nat, buflen: nat, k: nat)
    requires AllSized(ips) && at < k <= |ips|
    ensures k <= IpsFit(ips, at, len, buflen) <==> len + |EncodeAll(IpAttrs(ips[at..k]))| <= buflen
    decreases |ips| - at
  {
    hide IpAttr, Encode, EncodeAll, IpAttrs;
    var size := |Encode(IpAttr(ips[at]))|;
    IpAttrsMore(ips, at, k);
    if k == at + 1 {
      NoIpsLeft(ips, k);
    } else if len + size <= buflen {
      IpsFitExactly(ips, at + 1, len + size, buflen, k);
    }
  }

  lemma NoIpsLeft(ips: seq<AllowedIp>, k: nat)
    requires AllSized(ips) && k <= |ips|
    ensures |EncodeAll(IpAttrs(ips[k..k]))| == 0
  {
  }

  /** 124 bytes hold some of any peer. */
  lemma SomeFragFits(p: Peer, first: bool, at: nat, len: nat, buflen: nat)
    requires SizedPeer(p) && at <= |p.ips| && (first ==> at == 0) && (!first ==> at < |p.ips|) && len + 124 <= buflen
    ensures var r := NextFrag(p, first, at, len, buflen);
      r.Some? && (!first ==> at < r.value.1)
  {
    hide EncodeAll, PeerFields, IpsFit;
    PeerFieldsSize(p.info, first);
    if !first {
      SomeIpFits(p.ips, at, HeaderEnd(p.info, first, len) + 4, buflen);
    }
  }

  lemma {:induction false} FillProgress(ps: seq<Peer>, pos: Pos, len: nat, buflen: nat)
    requires SizedPeers(ps) && ValidPos(ps, pos) && pos.peer < |ps| && len + 124 <= buflen
    ensures Further(pos, Fill(ps, pos, len, buflen).1)
  {
    hide NextFrag, FragAttr, Encode;
    SomeFragFits(ps[pos.peer], !pos.sent, pos.ip, len, buflen);
    var (f, to) := NextFrag(ps[pos.peer], !pos.sent, pos.ip, len, buflen).value;
    var next := NextPos(ps, pos, to);
    if !next.sent {
      FillForward(ps, next, len + |Encode(FragAttr(f))|, buflen);
    }
  }

  lemma {:induction false} FillForward(ps: seq<Peer>, pos: Pos, len: nat, buflen: nat)
    requires SizedPeers(ps) && ValidPos(ps, pos)
    ensures pos.peer <= Fill(ps, pos, len, buflen).1.peer
    decreases |ps| - pos.peer
  {
    hide FragAttr, Encode, NextFrag;
    if pos.peer < |ps| {
      var r := NextFrag(ps[pos.peer], !pos.sent, pos.ip, len, buflen);
      if r.Some? {
        var next := NextPos(ps, pos, r.value.1);
        if !next.sent {
          FillForward(ps, next, len + |Encode(FragAttr(r.value.0))|, buflen);
        }
      }
    }
  }

  lemma {:induction false} NestSize(typ: nat, attrs: seq<Attr>)
    ensures |Encode(Attr(typ, EncodeAll(attrs)))| == 4 + |EncodeAll(attrs)|
  {
    hide EncodeAll;
    AlignAligned(|EncodeAll(attrs)|);
  }

  lemma FragSize(f: Frag)
    requires SizedFrag(f)
    ensures |Encode(FragAttr(f))|
         == 4 + |EncodeAll(PeerFields(f.info, f.first))| + if f.nest then 4 + |EncodeAll(IpAttrs(f.ips))| else 0
  {
    hide EncodeAll, Encode, PeerFields, IpAttrs;
    var fields, ips := PeerFields(f.info, f.first), IpAttrs(f.ips);
    var tail := if f.nest then [Attr(NESTED + 9, EncodeAll(ips))] else [];
    NestSize(NESTED, fields + tail);
    SizeConcat(fields, tail);
    NestSize(NESTED + 9, ips);
    NothingEncoded();
    EncodeAllOne(Attr(NESTED + 9, EncodeAll(ips)));
  }

  lemma NothingEncoded()
    ensures EncodeAll([]) == []
  {
  }

  /** Behind a fragment that ends in the middle of a peer 40 bytes are not free. */
  lemma PartFull(p: Peer, first: bool, at: nat, len: nat, buflen: nat)
    requires SizedPeer(p) && at <= |p.ips| && (first ==> at == 0) && (!first ==> at < |p.ips|)
    ensures var r := NextFrag(p, first, at, len, buflen);
      r.Some? && r.value.1 < |p.ips| ==> len + |Encode(FragAttr(r.value.0))| + 40 > buflen
  {
    hide EncodeAll, Encode, PeerFields, IpAttrs, IpAttr, FragAttr, IpsFit;
    var r := NextFrag(p, first, at, len, buflen);
    if r.Some? && r.value.1 < |p.ips| {
      var (f, to) := r.value;
      FragSize(f);
      if f.nest {
        IpsFitExactly(p.ips, at, HeaderEnd(p.info, first, len) + 4, buflen, to + 1);
        OneMoreIp(p.ips, at, to);
      }
    }
  }

  lemma OneMoreIp(ips: seq<AllowedIp>, at: nat, to: nat)
    requires AllSized(ips) && at <= to < |ips|
    ensures |EncodeAll(IpAttrs(ips[at..to + 1]))| <= |EncodeAll(IpAttrs(ips[at..to]))| + 40
  {
    hide EncodeAll, Encode, IpFields;
    IpFieldsSize(ips[to]);
    NestSize(NESTED, IpFields(ips[to]));
    var a, b := IpAttrs(ips[at..to]), [IpAttr(ips[to])];
    assert IpAttrs(ips[at..to + 1]) == a + b;
    SizeConcat(a, b);
    EncodeAllOne(b[0]);
  }

  lemma FragAttrsFirst(f: Frag, fs: seq<Frag>)
    requires SizedFrag(f) && SizedFrags(fs)
    ensures SizedFrags([f] + fs)
    ensures |EncodeAll(FragAttrs([f] + fs))| == |Encode(FragAttr(f))| + |EncodeAll(FragAttrs(fs))|
  {
    hide FragAttr, Encode, SizedFrag;
    var attrs := FragAttrs([f] + fs);
    assert attrs[0] == FragAttr(f) && attrs[1..] == FragAttrs(fs);
  }

  /** A message that leaves something for the next one has fewer than 124 bytes free. */
  lemma {:induction false} FillFull(ps: seq<Peer>, pos: Pos, len: nat, buflen: nat)
    requires SizedPeers(ps) && ValidPos(ps, pos)
    ensures var (fs, end) := Fill(ps, pos, len, buflen);
      end.peer < |ps| ==> buflen < len + |EncodeAll(FragAttrs(fs))| + 124
    decreases |ps| - pos.peer
  {
    hide NextFrag, FragAttr, Encode, EncodeAll, FragAttrs, SizedFrag, PeerFields;
    if pos.peer < |ps| {
      var p := ps[pos.peer];
      var r := NextFrag(p, !pos.sent, pos.ip, len, buflen);
      if r.None? {
        HeaderTooLong(p, !pos.sent, pos.ip, len, buflen);
      } else {
        var (f, to) := r.value;
        var next, len' := NextPos(ps, pos, to), len + |Encode(FragAttr(f))|;
        if next.sent {
          PartFull(p, !pos.sent, pos.ip, len, buflen);
          FragAttrsFirst(f, []);
          assert [f] + [] == [f];
        } else {
          FillFull(ps, next, len', buflen);
          FragAttrsFirst(f, Fill(ps, next, len', buflen).0);
        }
      }
    }
  }

  lemma HeaderTooLong(p: Peer, first: bool, at: nat, len: nat, buflen: nat)
    requires SizedPeer(p) && at <= |p.ips| && (first ==> at == 0) && (!first ==> at < |p.ips|)
    requires NextFrag(p, first, at, len, buflen).None?
    ensures buflen < len + 124
  {
    hide EncodeAll, PeerFields, IpsFit;
    PeerFieldsSize(p.info, first);
  }

  /** A resumed peer is only ever first in a message, where there is room. */
  lemma {:induction false} FillCovers(ps: seq<Peer>, sofar: seq<Frag>, pos: Pos, len: nat, buflen: nat)
    requires SizedPeers(ps) && Covered(ps, sofar, pos) && (pos.sent ==> len + 124 <= buflen)
    ensures var (fs, end) := Fill(ps, pos, len, buflen);
      Covered(ps, sofar + fs, end)
    decreases |ps| - pos.peer
  {
    hide NextFrag, FragAttr, Encode, Covered, SizedFrag;
    assert ValidPos(ps, pos) by {
      CoveredValid(ps, sofar, pos);
    }
    assert sofar + [] == sofar;
    if pos.peer < |ps| {
      var r := NextFrag(ps[pos.peer], !pos.sent, pos.ip, len, buflen);
      if r.Some? {
        var (f, to) := r.value;
        if pos.sent {
          SomeFragFits(ps[pos.peer], false, pos.ip, len, buflen);
        }
        CoveredStep(ps, sofar, pos, f, to);
        var next := NextPos(ps, pos, to);
        if !next.sent {
          FillCovers(ps, sofar + [f], next, len + |Encode(FragAttr(f))|, buflen);
          var rest := Fill(ps, next, len + |Encode(FragAttr(f))|, buflen).0;
          assert sofar + [f] + rest == sofar + ([f] + rest);
        }
      }
    }
  }

  lemma CoveredValid(ps: seq<Peer>, fs: seq<Frag>, pos: Pos)
    requires Covered(ps, fs, pos)
    ensures ValidPos(ps, pos)
  {
  }

  lemma FirstFragRoom(info: DeviceInfo, first: bool, buflen: nat)
    requires info.Sized() && 228 <= buflen
    ensures FirstFrag(info, first) + 124 <= buflen
  {
    DeviceFieldsSize(info, first);
  }

  lemma {:induction false} FlattenCons(fs: seq<Frag>, fss: seq<seq<Frag>>)
    ensures Flatten([fs] + fss) == fs + Flatten(fss)
  {
    var all := [fs] + fss;
    if fss == [] {
      assert all[..0] == [] && all[0] == fs;
    } else {
      assert all[..|all| - 1] == [fs] + fss[..|fss| - 1];
      FlattenCons(fs, fss[..|fss| - 1]);
      assert fs + Flatten(fss[..|fss| - 1]) + fss[|fss| - 1] == fs + Flatten(fss);
    }
  }

  lemma {:induction false} FragmentsCover(info: DeviceInfo, ps: seq<Peer>, sofar: seq<Frag>, pos: Pos, first: bool,
                                          buflen: nat)
    requires info.Sized() && SizedPeers(ps) && ValidPos(ps, pos) && Covered(ps, sofar, pos) && 228 <= buflen
    ensures var fs := sofar + Flatten(FragmentsFrom(info, ps, pos, first, buflen));
      Join(fs) == ps && Resumes(fs)
    decreases |ps| - pos.peer, !pos.sent, IpsLeft(ps, pos)
  {
    hide Fill, Join, Resumes, Covered, FirstFrag, Emitted, Flatten;
    var len := FirstFrag(info, first);
    var (fs, end) := Fill(ps, pos, len, buflen);
    FirstFragRoom(info, first, buflen);
    FillCovers(ps, sofar, pos, len, buflen);
    if pos.peer < |ps| {
      FillProgress(ps, pos, len, buflen);
    } else {
      FillForward(ps, pos, len, buflen);
    }
    if end.peer < |ps| {
      var rest := FragmentsFrom(info, ps, end, false, buflen);
      FragmentsCover(info, ps, sofar + fs, end, false, buflen);
      FlattenCons(fs, rest);
      Associate(sofar, fs, Flatten(rest));
    } else {
      FlattenOne(fs);
      CoveredEnd(ps, sofar + fs, end);
    }
  }

  lemma {:induction false} CoveredEnd(ps: seq<Peer>, fs: seq<Frag>, end: Pos)
    requires Covered(ps, fs, end) && end.peer >= |ps|
    ensures Join(fs) == ps && Resumes(fs)
  {
    hide Join, Resumes;
  }

  lemma FlattenOne(fs: seq<Frag>)
    ensures Flatten([fs]) == fs
  {
    assert [fs][..0] == [];
  }

  /** Joined in order, the fragments of all messages are the peer list. */
  lemma FragmentsJoin(info: DeviceInfo, ps: seq<Peer>, buflen: nat)
    requires info.Sized() && SizedPeers(ps) && 228 <= buflen
    ensures Join(Flatten(Fragments(info, ps, buflen))) == ps && Resumes(Flatten(Fragments(info, ps, buflen)))
  {
    var all := Flatten(Fragments(info, ps, buflen));
    FragmentsCover(info, ps, [], Pos(0, false, 0), true, buflen);
    assert [] + all == all;
  }
}
