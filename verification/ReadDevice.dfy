/** parse_device and its callbacks: rebuilding the linked lists of a device from
    the attributes of received messages. The functions say what each callback
    does to the value of the structure it fills; the methods do it on the lists. */
module ReadDevice {
  import opened Words
  import opened Netlink
  import opened WgDevice

  /** mnl_attr_get_type */
  function Type(a: Attr): nat {
    a.typ % TYPE_MASK
  }

  //
  // What the callbacks do
  //

  /** parse_allowedip */
  function IpField(ip: AllowedIp, a: Attr): AllowedIp
    requires |ip.ip| == 16
    ensures |IpField(ip, a).ip| == 16
  {
    if Type(a) == 1 && |a.payload| == 2 then ip.(family := GetLe16(a.payload))
    else if Type(a) == 2 && |a.payload| == 4 then ip.(ip := a.payload + ip.ip[4..])
    else if Type(a) == 2 && |a.payload| == 16 then ip.(ip := a.payload)
    else if Type(a) == 3 && |a.payload| == 1 then ip.(cidr := a.payload[0])
    else ip
  }

  function ReadIp(attrs: seq<Attr>, ip: AllowedIp): (r: AllowedIp)
    requires |ip.ip| == 16
    ensures |r.ip| == 16
    decreases |attrs|
  {
    if attrs == [] then ip else ReadIp(attrs[1..], IpField(ip, attrs[0]))
  }

  /** parse_allowedips: every attribute adds an IP; an illegal one stays, but ends the walk. */
  function ReadIps(attrs: seq<Attr>, ips: seq<AllowedIp>): (r: (seq<AllowedIp>, bool))
    decreases |attrs|
  {
    if attrs == [] then (ips, true)
    else
      var ip := ReadIp(Walk(attrs[0].payload), ZERO_IP);
      if ip.Legal() then ReadIps(attrs[1..], ips + [ip]) else (ips + [ip], false)
  }

  predicate IsZero(key: seq<Byte>) {
    forall k :: 0 <= k < |key| ==> key[k] == 0
  }

  /** parse_peer except for the allowed IPs */
  function PeerField(p: PeerInfo, a: Attr): (r: PeerInfo)
    requires |p.endpoint| == 28
    ensures |r.endpoint| == 28
  {
    if Type(a) == 1 && |a.payload| == 32 then p.(publicKey := a.payload, hasPublicKey := true)
    else if Type(a) == 2 && |a.payload| == 32 then
      p.(presharedKey := a.payload, hasPresharedKey := p.hasPresharedKey || !IsZero(a.payload))
    else if Type(a) == 4 && |a.payload| == 16 && GetLe16(a.payload) == AF_INET then
      p.(endpoint := a.payload + p.endpoint[16..])
    else if Type(a) == 4 && |a.payload| == 28 && GetLe16(a.payload) == AF_INET6 then p.(endpoint := a.payload)
    else if Type(a) == 5 && |a.payload| == 2 then p.(keepalive := GetLe16(a.payload))
    else if Type(a) == 6 && |a.payload| == 16 then p.(lastHandshake := a.payload)
    else if Type(a) == 7 && |a.payload| == 8 then p.(rxBytes := GetLe64(a.payload))
    else if Type(a) == 8 && |a.payload| == 8 then p.(txBytes := GetLe64(a.payload))
    else p
  }

  /** parse_peer over the attributes of one peer; a failed allowed IP ends the walk. */
  function ReadPeer(attrs: seq<Attr>, p: Peer): (r: Peer)
    requires |p.info.endpoint| == 28
    ensures |r.info.endpoint| == 28
    decreases |attrs|
  {
    if attrs == [] then p
    else if Type(attrs[0]) == 9 then
      var (ips, ok) := ReadIps(Walk(attrs[0].payload), p.ips);
      if ok then ReadPeer(attrs[1..], p.(ips := ips)) else p.(ips := ips)
    else ReadPeer(attrs[1..], p.(info := PeerField(p.info, attrs[0])))
  }

  const NEW_PEER: Peer := Peer(ZERO_PEER, [])

  /** parse_peers: every attribute adds a peer; one without a public key ends the
      walk, while a failure inside the peer does not. */
  function ReadPeers(attrs: seq<Attr>, ps: seq<Peer>): (r: (seq<Peer>, bool))
    decreases |attrs|
  {
    if attrs == [] then (ps, true)
    else
      var p := ReadPeer(Walk(attrs[0].payload), NEW_PEER);
      if p.info.hasPublicKey then ReadPeers(attrs[1..], ps + [p]) else (ps + [p], false)
  }

  /** strncpy of at most 15 bytes. */
  function CString(s: seq<Byte>, n: nat): (r: seq<Byte>)
    ensures |r| <= n && 0 !in r
  {
    if n == 0 || s == [] || s[0] == 0 then [] else [s[0]] + CString(s[1..], n - 1)
  }

  /** parse_device except for the peers */
  function DeviceField(d: DeviceInfo, a: Attr): DeviceInfo {
    if Type(a) == 1 && |a.payload| == 4 then d.(ifindex := GetLe32(a.payload))
    else if Type(a) == 2 && |a.payload| > 0 then d.(name := CString(a.payload, 15))
    else if Type(a) == 3 && |a.payload| == 32 then d.(privateKey := a.payload, hasPrivateKey := true)
    else if Type(a) == 4 && |a.payload| == 32 then d.(publicKey := a.payload, hasPublicKey := true)
    else if Type(a) == 6 && |a.payload| == 2 then d.(listenPort := GetLe16(a.payload))
    else if Type(a) == 7 && |a.payload| == 4 then d.(fwmark := GetLe32(a.payload))
    else d
  }

  datatype DeviceValue = DeviceValue(info: DeviceInfo, peers: seq<Peer>)

  /** parse_device over the attributes of one message; false when a callback failed. */
  function ReadMessage(attrs: seq<Attr>, d: DeviceValue): (r: (DeviceValue, bool))
    decreases |attrs|
  {
    if attrs == [] then (d, true)
    else if Type(attrs[0]) == 8 then
      var (ps, ok) := ReadPeers(Walk(attrs[0].payload), d.peers);
      if ok then ReadMessage(attrs[1..], d.(peers := ps)) else (d.(peers := ps), false)
    else ReadMessage(attrs[1..], d.(info := DeviceField(d.info, attrs[0])))
  }

  /** Messages one after the other, until one fails. */
  function ReadMessages(payloads: seq<seq<Byte>>, d: DeviceValue): (r: (DeviceValue, bool))
    decreases |payloads|
  {
    if payloads == [] then (d, true)
    else
      var (d', ok) := ReadMessage(Walk(payloads[0]), d);
      if ok then ReadMessages(payloads[1..], d') else (d', false)
  }

  //
  // One attribute after the other
  //

  lemma {:induction false} WalkStep(d: seq<Byte>)
    ensures AttrOk(d) ==> Walk(d) != [] && Walk(d)[0] == FirstAttr(d) && Walk(d)[1..] == Walk(AfterFirst(d))
    ensures !AttrOk(d) ==> Walk(d) == []
  {
    hide AttrOk, FirstAttr, AfterFirst;
  }

  lemma {:induction false} ReadIpStep(d: seq<Byte>, ip: AllowedIp)
    requires |ip.ip| == 16
    ensures ReadIp(Walk(d), ip) == if AttrOk(d) then ReadIp(Walk(AfterFirst(d)), IpField(ip, FirstAttr(d))) else ip
  {
    hide Walk, IpField, AttrOk, FirstAttr, AfterFirst;
    WalkStep(d);
  }

  lemma {:induction false} ReadIpsStep(d: seq<Byte>, ips: seq<AllowedIp>)
    ensures ReadIps(Walk(d), ips)
         == if AttrOk(d) then
              var ip := ReadIp(Walk(FirstAttr(d).payload), ZERO_IP);
              if ip.Legal() then ReadIps(Walk(AfterFirst(d)), ips + [ip]) else (ips + [ip], false)
            else (ips, true)
  {
    hide Walk, ReadIp, AttrOk, FirstAttr, AfterFirst;
    WalkStep(d);
  }

  lemma {:induction false} ReadPeerStep(d: seq<Byte>, p: Peer)
    requires |p.info.endpoint| == 28
    ensures ReadPeer(Walk(d), p)
         == if AttrOk(d) then
              var a, rest := FirstAttr(d), Walk(AfterFirst(d));
              if Type(a) == 9 then
                var (ips, ok) := ReadIps(Walk(a.payload), p.ips);
                if ok then ReadPeer(rest, p.(ips := ips)) else p.(ips := ips)
              else ReadPeer(rest, p.(info := PeerField(p.info, a)))
            else p
  {
    hide Walk, ReadIps, PeerField, Type, AttrOk, FirstAttr, AfterFirst;
    WalkStep(d);
  }

  lemma {:induction false} ReadPeersStep(d: seq<Byte>, ps: seq<Peer>)
    ensures ReadPeers(Walk(d), ps)
         == if AttrOk(d) then
              var p := ReadPeer(Walk(FirstAttr(d).payload), NEW_PEER);
              if p.info.hasPublicKey then ReadPeers(Walk(AfterFirst(d)), ps + [p]) else (ps + [p], false)
            else (ps, true)
  {
    hide Walk, ReadPeer, AttrOk, FirstAttr, AfterFirst;
    WalkStep(d);
  }

  lemma {:induction false} ReadMessageStep(d: seq<Byte>, v: DeviceValue)
    ensures ReadMessage(Walk(d), v)
         == if AttrOk(d) then
              var a, rest := FirstAttr(d), Walk(AfterFirst(d));
              if Type(a) == 8 then
                var (ps, ok) := ReadPeers(Walk(a.payload), v.peers);
                if ok then ReadMessage(rest, v.(peers := ps)) else (v.(peers := ps), false)
              else ReadMessage(rest, v.(info := DeviceField(v.info, a)))
            else (v, true)
  {
    hide Walk, ReadPeers, DeviceField, Type, AttrOk, FirstAttr, AfterFirst;
    WalkStep(d);
  }

  //
  // Doing it on the lists
  //

  /** mnl_attr_parse_nested with parse_allowedip */
  method ParseIp(n: IpNode, d: seq<Byte>)
    requires |n.ip.ip| == 16
    modifies n`ip
    ensures n.ip == ReadIp(Walk(d), old(n.ip))
  {
    hide Walk, ReadIp, IpField, AttrOk;
    var rest := d;
    while AttrOk(rest)
      invariant |n.ip.ip| == 16
      invariant ReadIp(Walk(rest), n.ip) == ReadIp(Walk(d), old(n.ip))
      decreases |rest|
    {
      ReadIpStep(rest, n.ip);
      n.ip := IpField(n.ip, FirstAttr(rest));
      rest := AfterFirst(rest);
    }
    ReadIpStep(rest, n.ip);
  }

  /** Linking a zeroed allowed IP behind the last one. */
  method AppendIp(p: PeerNode) returns (n: IpNode)
    requires p.Linked() && p.TailKnown()
    modifies p`info, p`first, p`last, p`ips, p.ips
    ensures p.Linked() && p.TailKnown() && fresh(n) && n.ip == ZERO_IP
    ensures p.ips == old(p.ips) + [n] && p.info == old(p.info)
    ensures p.IpValues() == old(p.IpValues()) + [ZERO_IP]
  {
    n := new IpNode(ZERO_IP, p);
    if p.first == null {
      p.first, p.last := n, n;
    } else {
      p.last.next := n;
      p.last := n;
    }
    p.ips := p.ips + [n];
  }

  /** A new allowed IP, first linked and then filled. */
  method AddIp(p: PeerNode, d: seq<Byte>) returns (n: IpNode)
    requires p.Linked() && p.TailKnown()
    modifies p`info, p`first, p`last, p`ips, p.ips
    ensures p.Linked() && p.TailKnown() && fresh(n)
    ensures p.ips == old(p.ips) + [n] && p.info == old(p.info)
    ensures n.ip == ReadIp(Walk(d), ZERO_IP) && p.IpValues() == old(p.IpValues()) + [n.ip]
  {
    n := AppendIp(p);
    ghost var before := p.IpValues();
    ParseIp(n, d);
    assert forall k :: 0 <= k < |p.ips| - 1 ==> p.ips[k] != n && p.ips[k].ip == before[k];
    assert p.IpValues() == before[..|before| - 1] + [n.ip];
  }

  /** mnl_attr_parse_nested with parse_allowedips */
  method ParseIps(p: PeerNode, d: seq<Byte>) returns (ok: bool)
    requires p.Linked() && p.TailKnown()
    modifies p`info, p`first, p`last, p`ips, p.ips
    ensures p.Linked() && p.TailKnown() && p.info == old(p.info)
    ensures old(p.ips) <= p.ips && forall k :: |old(p.ips)| <= k < |p.ips| ==> fresh(p.ips[k])
    ensures (p.IpValues(), ok) == ReadIps(Walk(d), old(p.IpValues()))
  {
    hide Walk, ReadIps, ReadIp, AttrOk;
    var rest := d;
    while AttrOk(rest)
      invariant p.Linked() && p.TailKnown() && p.info == old(p.info)
      invariant old(p.ips) <= p.ips && forall k :: |old(p.ips)| <= k < |p.ips| ==> fresh(p.ips[k])
      invariant ReadIps(Walk(rest), p.IpValues()) == ReadIps(Walk(d), old(p.IpValues()))
      decreases |rest|
    {
      ReadIpsStep(rest, p.IpValues());
      var n := AddIp(p, FirstAttr(rest).payload);
      if !n.ip.Legal() {
        return false;
      }
      rest := AfterFirst(rest);
    }
    ReadIpsStep(rest, p.IpValues());
    ok := true;
  }

  /** mnl_attr_parse_nested with parse_peer; its result is ignored by the caller. */
  method ParsePeer(p: PeerNode, d: seq<Byte>)
    requires p.Linked() && p.TailKnown() && |p.info.endpoint| == 28
    modifies p`info, p`first, p`last, p`ips, p.ips
    ensures p.Linked() && p.TailKnown()
    ensures old(p.ips) <= p.ips && forall k :: |old(p.ips)| <= k < |p.ips| ==> fresh(p.ips[k])
    ensures p.Value() == ReadPeer(Walk(d), old(p.Value()))
  {
    hide Walk, ReadIps, ReadPeer, AttrOk, PeerField, Type;
    var rest := d;
    while AttrOk(rest)
      invariant p.Linked() && p.TailKnown() && |p.info.endpoint| == 28
      invariant old(p.ips) <= p.ips && forall k :: |old(p.ips)| <= k < |p.ips| ==> fresh(p.ips[k])
      invariant ReadPeer(Walk(rest), p.Value()) == ReadPeer(Walk(d), old(p.Value()))
      decreases |rest|
    {
      var a := FirstAttr(rest);
      ReadPeerStep(rest, p.Value());
      if Type(a) == 9 {
        var ok := ParseIps(p, a.payload);
        if !ok {
          return;
        }
      } else {
        ghost var values := p.IpValues();
        p.info := PeerField(p.info, a);
        assert p.IpValues() == values;
      }
      rest := AfterFirst(rest);
    }
    ReadPeerStep(rest, p.Value());
  }

  /** Linking a peer behind the last one. */
  method LinkPeer(dev: Device, p: PeerNode)
    requires dev.Owns() && dev.Chained() && (dev.peers != [] ==> dev.last == dev.peers[|dev.peers| - 1])
    requires p !in dev.peers && p.next == null && p.ips == []
    modifies dev, dev.peers`next
    ensures dev.Repr == old(dev.Repr) + {p} && dev.Owns() && dev.Chained()
    ensures dev.peers == old(dev.peers) + [p] && dev.last == p && dev.info == old(dev.info)
  {
    ghost var before := dev.peers;
    if dev.first == null {
      dev.first, dev.last := p, p;
    } else {
      dev.last.next := p;
      dev.last := p;
    }
    dev.peers := before + [p];
    dev.Repr := dev.Repr + {p};
  }

  /** These peers are well linked through these nodes and have these values. */
  ghost predicate Kept(peers: seq<PeerNode>, values: seq<Peer>, nodes: set<IpNode>)
    reads peers`info, peers`first, peers`last, peers`ips, nodes
  {
    |peers| == |values|
    && (forall k, n :: 0 <= k < |peers| && n in peers[k].ips ==> n in nodes)
    && forall k :: 0 <= k < |peers| ==> peers[k].Linked() && peers[k].TailKnown() && peers[k].Value() == values[k]
  }

  /** A device whose earlier peers are kept and whose last one is well linked. */
  lemma LinkedByParts(dev: Device, before: seq<PeerNode>, p: PeerNode, values: seq<Peer>, nodes: set<IpNode>)
    requires dev.Owns() && dev.Chained() && dev.peers == before + [p] && dev.last == p
    requires p.Linked() && p.TailKnown() && Kept(before, values, nodes)
    ensures dev.Linked() && dev.TailKnown() && dev.Values() == values + [p.Value()]
  {
    forall k | 0 <= k < |dev.peers|
      ensures dev.peers[k].Linked() && dev.peers[k].TailKnown()
      ensures dev.Values()[k] == (values + [p.Value()])[k]
    {
      assert k < |before| ==> dev.peers[k] == before[k];
    }
  }

  /** Filling a peer that is already linked. */
  method FillPeer(dev: Device, p: PeerNode, d: seq<Byte>)
    requires dev.Owns() && p in dev.peers && p.Linked() && p.TailKnown() && p.Value() == NEW_PEER
    modifies dev`Repr, p`info, p`first, p`last, p`ips
    ensures dev.Owns() && p.Linked() && p.TailKnown() && p.Value() == ReadPeer(Walk(d), NEW_PEER)
    ensures fresh(dev.Repr - old(dev.Repr))
  {
    assert p.ips == [];
    ParsePeer(p, d);
    dev.Repr := dev.Repr + set n | n in p.ips;
  }

  lemma KeptNow(dev: Device, values: seq<Peer>) returns (nodes: set<IpNode>)
    requires dev.Linked() && dev.TailKnown() && values == dev.Values()
    ensures Kept(dev.peers, values, nodes)
  {
    var peers := dev.peers;
    nodes := set k, n | 0 <= k < |peers| && n in peers[k].ips :: n;
    assert forall k :: 0 <= k < |peers| ==> dev.Values()[k] == peers[k].Value();
  }

  /** A zeroed peer behind the last one; the others stay as they are. */
  method AppendPeer(dev: Device, ghost values: seq<Peer>) returns (p: PeerNode, ghost nodes: set<IpNode>)
    requires dev.Linked() && dev.TailKnown() && values == dev.Values()
    modifies dev, dev.peers`next
    ensures dev.Repr == old(dev.Repr) + {p} && dev.Owns() && dev.Chained()
    ensures dev.peers == old(dev.peers) + [p] && dev.last == p && dev.info == old(dev.info)
    ensures fresh(p) && p.Linked() && p.TailKnown() && p.Value() == NEW_PEER
    ensures Kept(old(dev.peers), values, nodes)
  {
    ghost var before := dev.peers;
    nodes := KeptNow(dev, values);
    hide Kept;
    p := new PeerNode(ZERO_PEER);
    assert dev.Owns() && dev.Chained();
    LinkPeer(dev, p);
    assert p.IpValues() == [];
  }

  /** A new peer, first linked and then filled. */
  method AddPeer(dev: Device, d: seq<Byte>) returns (p: PeerNode)
    requires dev.Linked() && dev.TailKnown()
    modifies dev, dev.peers`next
    ensures dev.Linked() && dev.TailKnown() && dev.info == old(dev.info)
    ensures fresh(p) && fresh(dev.Repr - old(dev.Repr)) && dev.peers == old(dev.peers) + [p]
    ensures p.info == ReadPeer(Walk(d), NEW_PEER).info
    ensures dev.Values() == old(dev.Values()) + [ReadPeer(Walk(d), NEW_PEER)]
  {
    hide ReadPeer, Walk, Kept;
    ghost var values, before := dev.Values(), dev.peers;
    ghost var nodes;
    p, nodes := AppendPeer(dev, values);
    FillPeer(dev, p, d);
    assert Kept(before, values, nodes);
    LinkedByParts(dev, before, p, values, nodes);
  }

  twostate predicate FreshTail(new peers: seq<PeerNode>, n: nat) {
    forall k :: n <= k < |peers| ==> fresh(peers[k])
  }

  /** mnl_attr_parse_nested with parse_peers */
  method ParsePeers(dev: Device, d: seq<Byte>) returns (ok: bool)
    requires dev.Linked() && dev.TailKnown()
    modifies dev, dev.peers`next
    ensures dev.Linked() && dev.TailKnown() && dev.info == old(dev.info)
    ensures fresh(dev.Repr - old(dev.Repr)) && old(dev.peers) <= dev.peers && FreshTail(dev.peers, |old(dev.peers)|)
    ensures (dev.Values(), ok) == ReadPeers(Walk(d), old(dev.Values()))
  {
    hide Walk, ReadPeers, ReadPeer, AttrOk;
    var rest := d;
    while AttrOk(rest)
      invariant dev.Linked() && dev.TailKnown() && dev.info == old(dev.info)
      invariant fresh(dev.Repr - old(dev.Repr)) && old(dev.peers) <= dev.peers && FreshTail(dev.peers, |old(dev.peers)|)
      invariant ReadPeers(Walk(rest), dev.Values()) == ReadPeers(Walk(d), old(dev.Values()))
      decreases |rest|
    {
      var a := FirstAttr(rest);
      ReadPeersStep(rest, dev.Values());
      var p := AddPeer(dev, a.payload);
      if !p.info.hasPublicKey {
        return false;
      }
      rest := AfterFirst(rest);
    }
    ReadPeersStep(rest, dev.Values());
    ok := true;
  }

  ghost function DeviceOf(dev: Device): DeviceValue
    requires dev.Owns()
    reads dev, dev.Repr
  {
    DeviceValue(dev.info, dev.Values())
  }

  /** read_device_cb: mnl_attr_parse with parse_device over the payload of a message. */
  method ParseMessage(dev: Device, d: seq<Byte>) returns (ok: bool)
    requires dev.Linked() && dev.TailKnown()
    modifies dev, dev.peers`next
    ensures dev.Linked() && dev.TailKnown()
    ensures fresh(dev.Repr - old(dev.Repr)) && old(dev.peers) <= dev.peers && FreshTail(dev.peers, |old(dev.peers)|)
    ensures (DeviceOf(dev), ok) == ReadMessage(Walk(d), old(DeviceOf(dev)))
  {
    hide Walk, ReadPeers, ReadMessage, AttrOk, Type, DeviceField;
    var rest := d;
    while AttrOk(rest)
      invariant dev.Linked() && dev.TailKnown()
      invariant fresh(dev.Repr - old(dev.Repr)) && old(dev.peers) <= dev.peers && FreshTail(dev.peers, |old(dev.peers)|)
      invariant ReadMessage(Walk(rest), DeviceOf(dev)) == ReadMessage(Walk(d), old(DeviceOf(dev)))
      decreases |rest|
    {
      ReadMessageStep(rest, DeviceOf(dev));
      var go := ParseDeviceAttr(dev, FirstAttr(rest));
      if !go {
        return false;
      }
      rest := AfterFirst(rest);
    }
    ReadMessageStep(rest, DeviceOf(dev));
    ok := true;
  }

  /** parse_device on one attribute. */
  method ParseDeviceAttr(dev: Device, a: Attr) returns (ok: bool)
    requires dev.Linked() && dev.TailKnown()
    modifies dev, dev.peers`next
    ensures dev.Linked() && dev.TailKnown()
    ensures fresh(dev.Repr - old(dev.Repr)) && old(dev.peers) <= dev.peers && FreshTail(dev.peers, |old(dev.peers)|)
    ensures Type(a) == 8 ==> (dev.Values(), ok) == ReadPeers(Walk(a.payload), old(dev.Values()))
    ensures Type(a) == 8 ==> dev.info == old(dev.info)
    ensures Type(a) != 8 ==> ok && dev.Values() == old(dev.Values()) && dev.info == DeviceField(old(dev.info), a)
  {
    if Type(a) == 8 {
      ok := ParsePeers(dev, a.payload);
    } else {
      ghost var values := dev.Values();
      dev.info := DeviceField(dev.info, a);
      assert dev.Values() == values;
      ok := true;
    }
  }

  /** The received messages one after the other; a failed callback ends the run. */
  method ParseMessages(dev: Device, payloads: seq<seq<Byte>>) returns (ok: bool)
    requires dev.Linked() && dev.TailKnown()
    modifies dev, dev.peers`next
    ensures dev.Linked() && dev.TailKnown()
    ensures fresh(dev.Repr - old(dev.Repr)) && old(dev.peers) <= dev.peers && FreshTail(dev.peers, |old(dev.peers)|)
    ensures (DeviceOf(dev), ok) == ReadMessages(payloads, old(DeviceOf(dev)))
  {
    var rest := payloads;
    while rest != []
      invariant dev.Linked() && dev.TailKnown()
      invariant fresh(dev.Repr - old(dev.Repr)) && old(dev.peers) <= dev.peers && FreshTail(dev.peers, |old(dev.peers)|)
      invariant ReadMessages(rest, DeviceOf(dev)) == ReadMessages(payloads, old(DeviceOf(dev)))
      decreases |rest|
    {
      ok := ParseMessage(dev, rest[0]);
      if !ok {
        return;
      }
      rest := rest[1..];
    }
    ok := true;
  }
}
