/** What the messages of wg_set_device ask of the receiver, by the meaning of their flags:
    to forget all peers first, to remove a peer, or to forget its allowed IPs before new
    ones are added. However the peers are fragmented, the messages ask for exactly what
    the caller's flags say. */
module Effects {
  import opened Options
  import opened Words
  import opened Netlink
  import opened WgDevice
  import opened Packing
  import opened SetDevice
  import opened ReadDevice
  import opened RoundTrip
  import opened Reassembly
  import opened Replies

  //
  // The flags of a fragment
  //

  /** The attributes inside a fragment. */
  function FragList(f: Frag): seq<Attr>
    requires SizedFrag(f)
  {
    PeerFields(f.info, f.first) + if f.nest then [Attr(NESTED + 9, EncodeAll(IpAttrs(f.ips)))] else []
  }

  lemma FragWalk(f: Frag)
    requires SizedFrag(f) && |FragAttr(f).payload| < 0x1_0000
    ensures Walk(FragAttr(f).payload) == FragList(f)
    ensures f.nest ==> |EncodeAll(IpAttrs(f.ips))| < 0x1_0000
  {
    hide EncodeAll, Walk, PeerFields;
    PeerTypes(f.info, f.first);
    var fields := PeerFields(f.info, f.first);
    if f.nest {
      WalkLast(fields, Attr(NESTED + 9, EncodeAll(IpAttrs(f.ips))));
    } else {
      assert fields + [] == fields;
      WalkSmall(fields);
    }
  }

  lemma FragMembers(f: Frag, a: Attr)
    requires SizedFrag(f)
    ensures a in FragList(f) <==>
      var p, word := f.info, FlagWord(f.info, f.first);
      a == Attr(1, p.publicKey)
      || (f.first && p.hasPresharedKey && a == Attr(2, p.presharedKey))
      || (f.first && p.EndpointFamily() == AF_INET && a == Attr(4, p.endpoint[..16]))
      || (f.first && p.EndpointFamily() == AF_INET6 && a == Attr(4, p.endpoint))
      || (f.first && p.hasKeepalive && a == Attr(5, Le16(p.keepalive)))
      || (word > 0 && a == Attr(3, Le32(word)))
      || (f.nest && a == Attr(NESTED + 9, EncodeAll(IpAttrs(f.ips))))
  {
    hide EncodeAll, IpAttrs, FlagWord, Le16, Le32, GetLe16;
  }

  /** An attribute that is the only one of its type, or is not there. */
  lemma {:induction false} Tell(attrs: seq<Attr>, there: bool, a: Attr, typ: nat, len: nat)
    requires HasForm(a, typ, len) && (there ==> a in attrs)
    requires forall b :: b in attrs && Type(b) == typ ==> there && b == a
    ensures Latest(attrs, typ, len) == if there then Some(a.payload) else None
  {
    hide Latest;
    if there {
      LatestAmong(attrs, a, len);
    } else {
      LatestNone(attrs, typ, len);
    }
  }

  /** What a fragment says, attribute by attribute. */
  lemma FragTells(f: Frag)
    requires SizedFrag(f)
    ensures var attrs, p := FragList(f), f.info;
      Latest(attrs, 1, 32) == Some(p.publicKey)
      && Latest(attrs, 2, 32) == (if f.first && p.hasPresharedKey then Some(p.presharedKey) else None)
      && Latest(attrs, 5, 2) == if f.first && p.hasKeepalive then Some(Le16(p.keepalive)) else None
  {
    hide Latest, FragList, FlagWord, EncodeAll, IpAttrs, Le16, Le32, GetLe16;
    var attrs, p := FragList(f), f.info;
    forall a
      ensures a in attrs && Type(a) == 1 ==> a == Attr(1, p.publicKey)
      ensures a in attrs && Type(a) == 2 ==> f.first && p.hasPresharedKey && a == Attr(2, p.presharedKey)
      ensures a in attrs && Type(a) == 5 ==> f.first && p.hasKeepalive && a == Attr(5, Le16(p.keepalive))
    {
      FragMembers(f, a);
    }
    FragMembers(f, Attr(1, p.publicKey));
    FragMembers(f, Attr(2, p.presharedKey));
    FragMembers(f, Attr(5, Le16(p.keepalive)));
    Tell(attrs, true, Attr(1, p.publicKey), 1, 32);
    Tell(attrs, f.first && p.hasPresharedKey, Attr(2, p.presharedKey), 2, 32);
    Tell(attrs, f.first && p.hasKeepalive, Attr(5, Le16(p.keepalive)), 5, 2);
  }

  lemma FragTellsEndpoint(f: Frag)
    requires SizedFrag(f)
    ensures Latest(FragList(f), 4, 0) == if f.first then Address(f.info) else None
  {
    hide Latest, FragList, FlagWord, EncodeAll, IpAttrs, Le16, Le32, GetLe16;
    var attrs, p := FragList(f), f.info;
    var there := f.first && Address(p).Some?;
    var a := Attr(4, if there then Address(p).value else [0]);
    forall b
      ensures b in attrs && Type(b) == 4 ==> there && b == a
    {
      FragMembers(f, b);
    }
    FragMembers(f, a);
    Tell(attrs, there, a, 4, 0);
  }

  /** The word of flags in a list of attributes, 0 if there is none. */
  function Flags(attrs: seq<Attr>, typ: nat): nat {
    Number(Latest(attrs, typ, 4), 0)
  }

  /** A fragment has a word of flags exactly if its peer is to be removed, or it is the first
      and the allowed IPs are to be replaced; bit 0 asks for the one and bit 1 for the other. */
  lemma FragFlags(f: Frag)
    requires SizedFrag(f) && |FragAttr(f).payload| < 0x1_0000
    ensures var attrs, p := Walk(FragAttr(f).payload), f.info;
      ((exists a :: a in attrs && Type(a) == 3) <==> p.removeMe || (f.first && p.replaceAllowedIps))
      && (Flags(attrs, 3) % 2 == 1 <==> p.removeMe)
      && (Flags(attrs, 3) / 2 % 2 == 1 <==> f.first && p.replaceAllowedIps)
      && Flags(attrs, 3) < 4
  {
    hide *;
    FragWalk(f);
    FragWord(f);
    WordBits(f.info, f.first);
    FlagsAre(FragList(f), 3, FlagWord(f.info, f.first));
  }

  lemma WordBits(p: PeerInfo, first: bool)
    ensures var word := FlagWord(p, first);
      (word % 2 == 1 <==> p.removeMe) && (word / 2 % 2 == 1 <==> first && p.replaceAllowedIps) && word < 4
      && (word > 0 <==> p.removeMe || (first && p.replaceAllowedIps))
  {
  }

  lemma {:induction false} FlagsAre(attrs: seq<Attr>, typ: nat, word: nat)
    requires word < 4 && Latest(attrs, typ, 4) == if word > 0 then Some(Le32(word)) else None
    ensures Flags(attrs, typ) == word
  {
    hide Latest;
  }

  lemma FragWord(f: Frag)
    requires SizedFrag(f)
    ensures var attrs, word := FragList(f), FlagWord(f.info, f.first);
      Latest(attrs, 3, 4) == (if word > 0 then Some(Le32(word)) else None)
      && ((exists a :: a in attrs && Type(a) == 3) <==> word > 0)
  {
    hide Latest, FragList, FlagWord, EncodeAll, IpAttrs, Le16, Le32, GetLe16;
    var attrs, word := FragList(f), FlagWord(f.info, f.first);
    var a := Attr(3, Le32(word));
    forall b
      ensures b in attrs && Type(b) == 3 ==> word > 0 && b == a
    {
      FragMembers(f, b);
    }
    FragMembers(f, a);
    Tell(attrs, word > 0, a, 3, 4);
    assert Type(a) == 3;
  }

  //
  // What a message asks for
  //

  /** What is set up for a peer. */
  datatype Settings = Settings(presharedKey: seq<Byte>, endpoint: seq<Byte>, keepalive: nat, ips: seq<AllowedIp>)

  const UNSET: Settings := Settings([], [], 0, [])

  type Peers = map<seq<Byte>, Settings>

  function SettingsOf(c: Peers, key: seq<Byte>): Settings {
    if key in c then c[key] else UNSET
  }

  /** The allowed IPs of a list, as they are sent. */
  function IpsIn(attrs: seq<Attr>): (r: seq<AllowedIp>)
    ensures |r| == |attrs|
  {
    seq(|attrs|, k requires 0 <= k < |attrs| => ReadIp(Walk(attrs[k].payload), ZERO_IP))
  }

  function Added(attrs: seq<Attr>): seq<AllowedIp> {
    if attrs == [] then []
    else (if Type(attrs[0]) == 9 then IpsIn(Walk(attrs[0].payload)) else []) + Added(attrs[1..])
  }

  /** One peer of a message: WGPEER_F_REMOVE_ME is bit 0 and WGPEER_F_REPLACE_ALLOWEDIPS bit 1. */
  function ApplyPeer(c: Peers, attrs: seq<Attr>): Peers {
    match Latest(attrs, 1, 32)
    case None => c
    case Some(key) =>
      var flags, was := Flags(attrs, 3), SettingsOf(c, key);
      if flags % 2 == 1 then c - {key}
      else
        c[key := Settings(Bytes(Latest(attrs, 2, 32), was.presharedKey), Bytes(Latest(attrs, 4, 0), was.endpoint),
                          Number(Latest(attrs, 5, 2), was.keepalive),
                          (if flags / 2 % 2 == 1 then [] else was.ips) + Added(attrs))]
  }

  function ApplyPeers(c: Peers, nests: seq<Attr>): Peers {
    if nests == [] then c
    else ApplyPeer(ApplyPeers(c, nests[..|nests| - 1]), Walk(nests[|nests| - 1].payload))
  }

  /** The lists of peers in a message. */
  function PeerNests(attrs: seq<Attr>): seq<Attr> {
    if attrs == [] then []
    else (if Type(attrs[0]) == 8 then Walk(attrs[0].payload) else []) + PeerNests(attrs[1..])
  }

  datatype Interface = Interface(privateKey: seq<Byte>, listenPort: nat, fwmark: nat, peers: Peers)

  /** One message: WGDEVICE_F_REPLACE_PEERS is bit 0. */
  function ApplyMessage(i: Interface, attrs: seq<Attr>): Interface {
    Interface(Bytes(Latest(attrs, 3, 32), i.privateKey), Number(Latest(attrs, 6, 2), i.listenPort),
              Number(Latest(attrs, 7, 4), i.fwmark),
              ApplyPeers(if Flags(attrs, 5) % 2 == 1 then map[] else i.peers, PeerNests(attrs)))
  }

  function ApplyAll(i: Interface, payloads: seq<seq<Byte>>): Interface {
    if payloads == [] then i
    else ApplyMessage(ApplyAll(i, payloads[..|payloads| - 1]), Walk(payloads[|payloads| - 1]))
  }

  //
  // What the caller asks for
  //

  /** A whole peer, by the flags of wg_peer. */
  function Configure(c: Peers, p: Peer): Peers
    requires SizedPeer(p)
  {
    var key, was := p.info.publicKey, SettingsOf(c, p.info.publicKey);
    if p.info.removeMe then c - {key}
    else
      c[key := Settings(if p.info.hasPresharedKey then p.info.presharedKey else was.presharedKey,
                        Bytes(Address(p.info), was.endpoint),
                        if p.info.hasKeepalive then p.info.keepalive else was.keepalive,
                        (if p.info.replaceAllowedIps then [] else was.ips) + SentIps(p.ips))]
  }

  function ConfigureAll(c: Peers, ps: seq<Peer>): Peers
    requires SizedPeers(ps)
  {
    if ps == [] then c else Configure(ConfigureAll(c, ps[..|ps| - 1]), ps[|ps| - 1])
  }

  /** A whole device, by the flags of wg_device. */
  function Configured(i: Interface, d: DeviceInfo, ps: seq<Peer>): Interface
    requires SizedPeers(ps)
  {
    Interface(if d.hasPrivateKey then d.privateKey else i.privateKey,
              if d.hasListenPort then d.listenPort else i.listenPort,
              if d.hasFwmark then d.fwmark else i.fwmark,
              ConfigureAll(if d.replacePeers then map[] else i.peers, ps))
  }

  //
  // One fragment
  //

  /** A fragment asks for what its peer does: all of it if it is the first, and for more
      allowed IPs, or again for the removal, if it resumes. */
  function ApplyFrag(c: Peers, f: Frag): Peers
    requires SizedFrag(f)
  {
    var key, was := f.info.publicKey, SettingsOf(c, f.info.publicKey);
    if f.first then Configure(c, Peer(f.info, f.ips))
    else if f.info.removeMe then c - {key}
    else c[key := was.(ips := was.ips + SentIps(f.ips))]
  }

  lemma {:induction false} NoneAdded(attrs: seq<Attr>)
    requires forall a :: a in attrs ==> Type(a) != 9
    ensures Added(attrs) == []
  {
    if attrs != [] {
      NoneAdded(attrs[1..]);
    }
  }

  lemma {:induction false} AddedLast(attrs: seq<Attr>, nest: Attr)
    requires Type(nest) == 9 && forall a :: a in attrs ==> Type(a) != 9
    ensures Added(attrs + [nest]) == IpsIn(Walk(nest.payload))
  {
    hide Walk, IpsIn, Type;
    var all := attrs + [nest];
    if attrs == [] {
      assert all[1..] == [] && all[0] == nest;
      assert IpsIn(Walk(nest.payload)) + [] == IpsIn(Walk(nest.payload));
    } else {
      assert all[0] == attrs[0] && all[1..] == attrs[1..] + [nest];
      AddedLast(attrs[1..], nest);
    }
  }

  lemma {:induction false} SentIpsIn(ips: seq<AllowedIp>)
    requires AllSized(ips) && |EncodeAll(IpAttrs(ips))| < 0x1_0000
    ensures IpsIn(Walk(EncodeAll(IpAttrs(ips)))) == SentIps(ips)
  {
    hide EncodeAll, Walk, ReadIp, SentIp;
    var attrs := IpAttrs(ips);
    WalkSmall(attrs);
    forall k | 0 <= k < |ips|
      ensures IpsIn(attrs)[k] == SentIps(ips)[k]
    {
      IpBack(ips[k]);
    }
  }

  lemma {:induction false} FragAdds(f: Frag)
    requires SizedFrag(f) && |FragAttr(f).payload| < 0x1_0000
    ensures Added(FragList(f)) == SentIps(f.ips)
  {
    hide EncodeAll, Walk, PeerFields, IpsIn, SentIp, IpAttr;
    FragWalk(f);
    var fields := PeerFields(f.info, f.first);
    NoNestInFields(f.info, f.first);
    if f.nest {
      SentIpsIn(f.ips);
      AddedLast(fields, Attr(NESTED + 9, EncodeAll(IpAttrs(f.ips))));
    } else {
      assert fields + [] == fields;
      NoneAdded(fields);
      assert SentIps(f.ips) == [];
    }
  }

  lemma NoNestInFields(p: PeerInfo, first: bool)
    requires p.Sized()
    ensures forall a :: a in PeerFields(p, first) ==> Type(a) != 9
  {
    hide PeerFields, Le16, Le32, GetLe16, FlagWord;
    var f := Frag(p, first, false, []);
    assert FragList(f) == PeerFields(p, first) + [] == PeerFields(p, first);
    hide FragList;
    forall a | a in PeerFields(p, first)
      ensures Type(a) != 9
    {
      FragMembers(f, a);
    }
  }

  /** The bytes of a fragment ask for what the fragment stands for. */
  lemma {:induction false} FragEffect(f: Frag, c: Peers)
    requires SizedFrag(f) && |FragAttr(f).payload| < 0x1_0000
    ensures ApplyPeer(c, Walk(FragAttr(f).payload)) == ApplyFrag(c, f)
  {
    hide EncodeAll, Walk, FragAttr, FragList, Latest, Added, SentIps, Address, Flags, Le16, GetLe16, GetLe32, GetLe64;
    FragWalk(f);
    FragTells(f);
    FragTellsEndpoint(f);
    FragFlags(f);
    FragAdds(f);
    Le16RoundTrip(f.info.keepalive);
  }

  //
  // All fragments
  //

  function ApplyFrags(c: Peers, fs: seq<Frag>): Peers
    requires SizedFrags(fs)
  {
    if fs == [] then c else ApplyFrag(ApplyFrags(c, fs[..|fs| - 1]), fs[|fs| - 1])
  }

  /** A resumed fragment completes what was asked for before. */
  lemma ResumedEffect(c: Peers, info: PeerInfo, ips: seq<AllowedIp>, f: Frag)
    requires SizedPeer(Peer(info, ips)) && SizedFrag(f) && f.info == info && !f.first
    requires SizedPeer(Peer(info, ips + f.ips))
    ensures ApplyFrag(Configure(c, Peer(info, ips)), f) == Configure(c, Peer(info, ips + f.ips))
  {
    hide Address;
    assert SentIps(ips + f.ips) == SentIps(ips) + SentIps(f.ips);
    var kept := if info.replaceAllowedIps then [] else SettingsOf(c, info.publicKey).ips;
    Associate(kept, SentIps(ips), SentIps(f.ips));
  }

  lemma {:induction false} ConfigureSnoc(c: Peers, ps: seq<Peer>, p: Peer)
    requires SizedPeers(ps) && SizedPeer(p)
    ensures SizedPeers(ps + [p]) && ConfigureAll(c, ps + [p]) == Configure(ConfigureAll(c, ps), p)
  {
    assert (ps + [p])[..|ps|] == ps;
  }

  /** Fragments ask for what the peers they make up do. */
  lemma {:induction false} JoinEffect(c: Peers, fs: seq<Frag>)
    requires SizedFrags(fs) && Resumes(fs)
    ensures SizedPeers(Join(fs)) && ApplyFrags(c, fs) == ConfigureAll(c, Join(fs))
  {
    JoinSized(fs);
    if fs != [] {
      var init, f := fs[..|fs| - 1], fs[|fs| - 1];
      FragsSnoc(fs);
      JoinAdds(fs);
      JoinEffect(c, init);
      var before := Join(init);
      hide Join, Resumes, ApplyFrag, Configure, ConfigureAll;
      if f.first {
        ConfigureSnoc(c, before, Peer(f.info, f.ips));
        FirstEffect(ConfigureAll(c, before), f);
      } else {
        var n, p := |before| - 1, before[|before| - 1];
        var others := before[..n];
        assert before == others + [p];
        ConfigureSnoc(c, others, p);
        ConfigureSnoc(c, others, Peer(p.info, p.ips + f.ips));
        ResumedEffect(ConfigureAll(c, others), p.info, p.ips, f);
      }
    }
  }

  lemma FirstEffect(c: Peers, f: Frag)
    requires SizedFrag(f) && f.first
    ensures ApplyFrag(c, f) == Configure(c, Peer(f.info, f.ips))
  {
  }

  lemma {:induction false} FragsEffect(c: Peers, fs: seq<Frag>)
    requires SizedFrags(fs) && forall k :: 0 <= k < |fs| ==> |FragAttrs(fs)[k].payload| < 0x1_0000
    ensures ApplyPeers(c, FragAttrs(fs)) == ApplyFrags(c, fs)
  {
    hide FragAttr, ApplyPeer, ApplyFrag, Walk;
    if fs != [] {
      var n := |fs| - 1;
      var init, attrs := fs[..n], FragAttrs(fs);
      assert attrs[..n] == FragAttrs(init) && attrs[n] == FragAttr(fs[n]);
      assert forall k :: 0 <= k < n ==> FragAttrs(init)[k] == attrs[k];
      FragsEffect(c, init);
      FragEffect(fs[n], ApplyFrags(c, init));
    }
  }

  lemma {:induction false} ApplyFragsConcat(c: Peers, a: seq<Frag>, b: seq<Frag>)
    requires SizedFrags(a) && SizedFrags(b)
    ensures SizedFrags(a + b) && ApplyFrags(c, a + b) == ApplyFrags(ApplyFrags(c, a), b)
  {
    hide ApplyFrag, SizedFrag;
    assert forall k :: 0 <= k < |b| ==> (a + b)[|a| + k] == b[k];
    if b == [] {
      assert a + b == a;
    } else {
      var n := |b| - 1;
      assert (a + b)[..|a| + n] == a + b[..n] && (a + b)[|a| + n] == b[n];
      ApplyFragsConcat(c, a, b[..n]);
    }
  }

  //
  // Messages
  //

  lemma MessageMembers(d: DeviceInfo, first: bool, anyPeers: bool, fs: seq<Frag>, a: Attr)
    requires d.Sized() && SizedFrags(fs)
    ensures a in MessageAttrs(d, first, anyPeers, fs) <==>
      a == Attr(2, d.name + [0])
      || (first && d.hasPrivateKey && a == Attr(3, d.privateKey))
      || (first && d.hasListenPort && a == Attr(6, Le16(d.listenPort)))
      || (first && d.hasFwmark && a == Attr(7, Le32(d.fwmark)))
      || (first && d.replacePeers && a == Attr(5, Le32(1)))
      || (anyPeers && a == Attr(NESTED + 8, EncodeAll(FragAttrs(fs))))
  {
    hide EncodeAll, FragAttrs, Le16, Le32;
  }

  /** Only the first message has a word of flags, whose bit 0 asks for the peers to be
      replaced, and only if they are to be. */
  lemma MessageFlags(d: DeviceInfo, first: bool, anyPeers: bool, fs: seq<Frag>)
    requires d.Sized() && SizedFrags(fs)
    ensures var attrs := MessageAttrs(d, first, anyPeers, fs);
      ((exists a :: a in attrs && Type(a) == 5) <==> first && d.replacePeers)
      && (Flags(attrs, 5) % 2 == 1 <==> first && d.replacePeers) && Flags(attrs, 5) < 2
  {
    hide MessageAttrs, EncodeAll, Le16, Le32, FragAttrs, Latest;
    var attrs, a, there := MessageAttrs(d, first, anyPeers, fs), Attr(5, Le32(1)), first && d.replacePeers;
    forall b
      ensures b in attrs && Type(b) == 5 ==> there && b == a
    {
      MessageMembers(d, first, anyPeers, fs, b);
    }
    MessageMembers(d, first, anyPeers, fs, a);
    assert Type(a) == 5;
    Tell(attrs, there, a, 5, 4);
    FlagsAre(attrs, 5, if there then 1 else 0);
  }

  /** What a message says, attribute by attribute. */
  lemma MessageTells(d: DeviceInfo, first: bool, anyPeers: bool, fs: seq<Frag>)
    requires d.Sized() && SizedFrags(fs)
    ensures var attrs := MessageAttrs(d, first, anyPeers, fs);
      Latest(attrs, 3, 32) == (if first && d.hasPrivateKey then Some(d.privateKey) else None)
      && Latest(attrs, 6, 2) == (if first && d.hasListenPort then Some(Le16(d.listenPort)) else None)
      && Latest(attrs, 7, 4) == if first && d.hasFwmark then Some(Le32(d.fwmark)) else None
  {
    hide MessageAttrs, EncodeAll, Le16, Le32, FragAttrs, Latest;
    var attrs := MessageAttrs(d, first, anyPeers, fs);
    var key, port, mark := Attr(3, d.privateKey), Attr(6, Le16(d.listenPort)), Attr(7, Le32(d.fwmark));
    forall b
      ensures b in attrs && Type(b) == 3 ==> first && d.hasPrivateKey && b == key
      ensures b in attrs && Type(b) == 6 ==> first && d.hasListenPort && b == port
      ensures b in attrs && Type(b) == 7 ==> first && d.hasFwmark && b == mark
    {
      MessageMembers(d, first, anyPeers, fs, b);
    }
    MessageMembers(d, first, anyPeers, fs, key);
    MessageMembers(d, first, anyPeers, fs, port);
    MessageMembers(d, first, anyPeers, fs, mark);
    Tell(attrs, first && d.hasPrivateKey, key, 3, 32);
    Tell(attrs, first && d.hasListenPort, port, 6, 2);
    Tell(attrs, first && d.hasFwmark, mark, 7, 4);
  }

  lemma {:induction false} NoPeerNests(attrs: seq<Attr>)
    requires forall a :: a in attrs ==> Type(a) != 8
    ensures PeerNests(attrs) == []
  {
    if attrs != [] {
      NoPeerNests(attrs[1..]);
    }
  }

  lemma {:induction false} LastPeerNests(attrs: seq<Attr>, nest: Attr)
    requires Type(nest) == 8 && forall a :: a in attrs ==> Type(a) != 8
    ensures PeerNests(attrs + [nest]) == Walk(nest.payload)
  {
    hide Walk, Type;
    var all := attrs + [nest];
    if attrs == [] {
      assert all[1..] == [] && all[0] == nest;
      assert Walk(nest.payload) + [] == Walk(nest.payload);
    } else {
      assert all[0] == attrs[0] && all[1..] == attrs[1..] + [nest];
      LastPeerNests(attrs[1..], nest);
    }
  }

  lemma NoNestInDevice(d: DeviceInfo, first: bool)
    requires d.Sized()
    ensures forall a :: a in DeviceFields(d, first) ==> Type(a) != 8
  {
    hide Le16, Le32;
  }

  /** A message and its peers, walked. */
  lemma {:induction false} MessageWalk(d: DeviceInfo, first: bool, anyPeers: bool, fs: seq<Frag>)
    requires d.Sized() && SizedFrags(fs) && (anyPeers || fs == [])
    requires |EncodeAll(MessageAttrs(d, first, anyPeers, fs))| < 0x1_0000
    ensures var attrs := MessageAttrs(d, first, anyPeers, fs);
      Walk(EncodeAll(attrs)) == attrs && PeerNests(attrs) == FragAttrs(fs)
    ensures forall k :: 0 <= k < |fs| ==> |FragAttrs(fs)[k].payload| < 0x1_0000
  {
    hide EncodeAll, Walk, DeviceFields;
    var fields := DeviceFields(d, first);
    DeviceTypes(d, first);
    NoNestInDevice(d, first);
    if anyPeers {
      var nest := Attr(NESTED + 8, EncodeAll(FragAttrs(fs)));
      WalkLast(fields, nest);
      WalkSmall(FragAttrs(fs));
      PartsFit(FragAttrs(fs));
      LastPeerNests(fields, nest);
    } else {
      assert fields + [] == fields;
      WalkSmall(fields);
      NoPeerNests(fields);
    }
  }

  /** One message asks for what its fragments do, and the first for what is set on the device. */
  lemma {:induction false} MessageEffect(i: Interface, d: DeviceInfo, first: bool, anyPeers: bool, fs: seq<Frag>)
    requires d.Sized() && SizedFrags(fs) && (anyPeers || fs == [])
    requires |EncodeAll(MessageAttrs(d, first, anyPeers, fs))| < 0x1_0000
    ensures var r := ApplyMessage(i, Walk(EncodeAll(MessageAttrs(d, first, anyPeers, fs))));
      r.peers == ApplyFrags(if first && d.replacePeers then map[] else i.peers, fs)
      && r.privateKey == (if first && d.hasPrivateKey then d.privateKey else i.privateKey)
      && r.listenPort == (if first && d.hasListenPort then d.listenPort else i.listenPort)
      && r.fwmark == if first && d.hasFwmark then d.fwmark else i.fwmark
  {
    hide EncodeAll, Walk, MessageAttrs, FragAttrs, Latest, Flags, ApplyPeers, ApplyFrags, PeerNests,
      Le16, Le32, GetLe16, GetLe32, GetLe64;
    MessageWalk(d, first, anyPeers, fs);
    MessageTells(d, first, anyPeers, fs);
    MessageFlags(d, first, anyPeers, fs);
    FragsEffect(if first && d.replacePeers then map[] else i.peers, fs);
    Le16RoundTrip(d.listenPort);
    Le32RoundTrip(d.fwmark);
  }

  /** The device as the first message sets it, with these fragments applied. */
  function Partly(i: Interface, d: DeviceInfo, fs: seq<Frag>): Interface
    requires SizedFrags(fs)
  {
    Interface(if d.hasPrivateKey then d.privateKey else i.privateKey,
              if d.hasListenPort then d.listenPort else i.listenPort,
              if d.hasFwmark then d.fwmark else i.fwmark,
              ApplyFrags(if d.replacePeers then map[] else i.peers, fs))
  }

  lemma {:induction false} ApplyAllSnoc(i: Interface, payloads: seq<seq<Byte>>, last: seq<Byte>)
    ensures ApplyAll(i, payloads + [last]) == ApplyMessage(ApplyAll(i, payloads), Walk(last))
  {
    assert (payloads + [last])[..|payloads|] == payloads;
  }

  /** One more message. */
  lemma {:induction false} NextEffect(i: Interface, was: Interface, msg: seq<Byte>, buflen: nat, d: DeviceInfo,
                                      first: bool, anyPeers: bool, sofar: seq<Frag>, fs: seq<Frag>)
    requires buflen < 0x1_0000 && d.Sized() && Carries(msg, buflen, d, first, anyPeers, fs) && (anyPeers || fs == [])
    requires SizedFrags(sofar) && if first then was == i && sofar == [] else was == Partly(i, d, sofar)
    ensures SizedFrags(sofar + fs) && ApplyMessage(was, Walk(Payload(msg))) == Partly(i, d, sofar + fs)
  {
    hide EncodeAll, Walk, MessageAttrs, ApplyMessage, SizedFrag;
    MessageEffect(was, d, first, anyPeers, fs);
    var start := if d.replacePeers then map[] else i.peers;
    ApplyFragsConcat(start, sofar, fs);
    if first {
      assert sofar + fs == fs;
    }
  }

  lemma {:induction false} AllEffect(i: Interface, messages: seq<seq<Byte>>, buflen: nat, d: DeviceInfo, anyPeers: bool,
                                     frags: seq<seq<Frag>>, n: nat)
    requires buflen < 0x1_0000 && AllCarry(messages, buflen, d, anyPeers, frags) && n <= |frags|
    requires anyPeers || forall k :: 0 <= k < |frags| ==> frags[k] == []
    ensures SizedFrags(Flatten(frags[..n]))
    ensures ApplyAll(i, Payloads(messages)[..n]) == if n == 0 then i else Partly(i, d, Flatten(frags[..n]))
  {
    hide Walk, MessageAttrs, EncodeAll, Partly, ApplyMessage, SizedFrag;
    if n > 0 {
      var m := n - 1;
      AllEffect(i, messages, buflen, d, anyPeers, frags, m);
      var was, sofar := ApplyAll(i, Payloads(messages)[..m]), Flatten(frags[..m]);
      assert Carries(messages[m], buflen, d, m == 0, anyPeers, frags[m]);
      assert frags[..n][..m] == frags[..m];
      assert Flatten(frags[..n]) == sofar + frags[m];
      hide ApplyAll, Flatten;
      NextEffect(i, was, messages[m], buflen, d, m == 0, anyPeers, sofar, frags[m]);
      PayloadsSnoc(messages, m);
      ApplyAllSnoc(i, Payloads(messages)[..m], Payload(messages[m]));
    }
  }

  /** Whatever the receiver had set up before: after all messages of wg_set_device it has
      what the caller's flags ask for, as if every peer had been sent whole. */
  lemma {:induction false} SetDeviceEffect(i: Interface, messages: seq<seq<Byte>>, buflen: nat, d: DeviceInfo,
                                           ps: seq<Peer>)
    requires 228 <= buflen < 0x1_0000 && d.Sized() && SizedPeers(ps)
    requires AllCarry(messages, buflen, d, ps != [], Fragments(d, ps, buflen))
    ensures ApplyAll(i, Payloads(messages)) == Configured(i, d, ps)
  {
    hide Walk, MessageAttrs, EncodeAll, ApplyAll, Flatten, Fragments, Join, Resumes, ApplyFrags, ConfigureAll,
      SizedFrag;
    var frags := Fragments(d, ps, buflen);
    var n, fs := |frags|, Flatten(frags);
    FragmentsJoin(d, ps, buflen);
    AllFlattened(messages, buflen, d, ps != [], frags, n);
    assert frags[..n] == frags && Payloads(messages)[..n] == Payloads(messages);
    if ps == [] {
      NothingJoined(fs);
      forall k | 0 <= k < n
        ensures frags[k] == []
      {
        NoFrags(frags, k);
      }
    }
    AllEffect(i, messages, buflen, d, ps != [], frags, n);
    JoinEffect(if d.replacePeers then map[] else i.peers, fs);
  }

  //
  // Replacement is asked for once
  //

  predicate Replaces(f: Frag)
    requires SizedFrag(f)
  {
    Flags(Walk(FragAttr(f).payload), 3) / 2 % 2 == 1
  }

  function Asking(fs: seq<Frag>): nat
    requires SizedFrags(fs)
  {
    if fs == [] then 0 else Asking(fs[..|fs| - 1]) + if Replaces(fs[|fs| - 1]) then 1 else 0
  }

  function Replaced(ps: seq<Peer>): nat {
    if ps == [] then 0 else Replaced(ps[..|ps| - 1]) + if ps[|ps| - 1].info.replaceAllowedIps then 1 else 0
  }

  /** One more fragment, one more peer or more of the last one. */
  lemma {:induction false} ReplacedStep(fs: seq<Frag>)
    requires SizedFrags(fs) && Resumes(fs) && fs != []
    ensures var f := fs[|fs| - 1];
      Replaced(Join(fs)) == Replaced(Join(fs[..|fs| - 1])) + if f.first && f.info.replaceAllowedIps then 1 else 0
  {
    JoinAdds(fs);
    var before, after := Join(fs[..|fs| - 1]), Join(fs);
    hide Join, Resumes, SizedFrag;
    if fs[|fs| - 1].first {
      assert after[..|before|] == before;
    } else {
      assert after[..|after| - 1] == before[..|before| - 1];
    }
  }

  /** Only first fragments ask for replacement: as many fragments as peers that want it. */
  lemma {:induction false} ReplaceOnce(fs: seq<Frag>)
    requires SizedFrags(fs) && Resumes(fs) && forall k :: 0 <= k < |fs| ==> |FragAttr(fs[k]).payload| < 0x1_0000
    ensures Asking(fs) == Replaced(Join(fs))
    ensures forall k :: 0 <= k < |fs| && !fs[k].first ==> !Replaces(fs[k])
  {
    forall k | 0 <= k < |fs|
      ensures Replaces(fs[k]) <==> fs[k].first && fs[k].info.replaceAllowedIps
    {
      FragFlags(fs[k]);
    }
    if fs != [] {
      FragsSnoc(fs);
      ReplacedStep(fs);
      hide Join, Replaces, FragAttr, Resumes, SizedFrag, Replaced;
      ReplaceOnce(fs[..|fs| - 1]);
    }
  }

  /** So it is in all messages of wg_set_device. */
  lemma {:induction false} SetDeviceReplaces(messages: seq<seq<Byte>>, buflen: nat, d: DeviceInfo, ps: seq<Peer>)
    requires 228 <= buflen < 0x1_0000 && d.Sized() && SizedPeers(ps)
    requires AllCarry(messages, buflen, d, ps != [], Fragments(d, ps, buflen))
    ensures var fs := Flatten(Fragments(d, ps, buflen));
      SizedFrags(fs) && Asking(fs) == Replaced(ps) && forall k :: 0 <= k < |fs| && !fs[k].first ==> !Replaces(fs[k])
  {
    hide Walk, MessageAttrs, EncodeAll, Flatten, Fragments, Join, Resumes, SizedFrag, Replaces, FragAttr,
      Asking, Replaced;
    var frags := Fragments(d, ps, buflen);
    FragmentsJoin(d, ps, buflen);
    AllFlattened(messages, buflen, d, ps != [], frags, |frags|);
    assert frags[..|frags|] == frags;
    if ps == [] {
      NothingJoined(Flatten(frags));
    } else {
      AllFragsFit(messages, buflen, d, frags, |frags|);
    }
    ReplaceOnce(Flatten(frags));
  }

  /** The fragments that messages carry have lengths that fit. */
  lemma {:induction false} AllFragsFit(messages: seq<seq<Byte>>, buflen: nat, d: DeviceInfo, frags: seq<seq<Frag>>,
                                       n: nat)
    requires buflen < 0x1_0000 && AllCarry(messages, buflen, d, true, frags) && n <= |frags|
    ensures var fs := Flatten(frags[..n]);
      SizedFrags(fs) && forall k :: 0 <= k < |fs| ==> |FragAttr(fs[k]).payload| < 0x1_0000
  {
    hide Walk, MessageAttrs, EncodeAll, SizedFrag, FragAttr;
    if n > 0 {
      var m := n - 1;
      AllFragsFit(messages, buflen, d, frags, m);
      assert Carries(messages[m], buflen, d, m == 0, true, frags[m]);
      MessageWalk(d, m == 0, true, frags[m]);
      var a, b := Flatten(frags[..m]), frags[m];
      assert frags[..n][..m] == frags[..m] && Flatten(frags[..n]) == a + b;
      assert forall k :: 0 <= k < |b| ==> FragAttrs(b)[k] == FragAttr(b[k]);
      assert forall k :: |a| <= k < |a + b| ==> (a + b)[k] == b[k - |a|];
    }
  }
}
