/** wg_set_device: packing a device of any number of peers and allowed IPs into
    messages of bounded size, resuming in the middle of a peer when one is full. */
module SetDevice {
  import opened Options
  import opened Words
  import opened Netlink
  import opened WgDevice
  import opened Packing

  //
  // One peer
  //

  /** One allowed IP, or nothing when it does not fit. */
  method PutAllowedIp(b: Message, ip: AllowedIp) returns (ok: bool)
    requires b.Valid() && ip.Sized()
    modifies b, b.buf
    ensures b.Valid() && b.buf == old(b.buf)
    ensures ok <==> old(b.len) + |Encode(IpAttr(ip))| <= b.buf.Length
    ensures ok ==> b.open == Grown(old(b.open), IpAttr(ip)) && b.len == old(b.len) + |Encode(IpAttr(ip))|
    ensures !ok ==> b.open == old(b.open) && b.len == old(b.len)
  {
    hide EncodeAll, Encode, IpFields;
    AlignAligned(|EncodeAll(IpFields(ip))|);
    var nest := b.NestStartCheck(0);
    if nest.None? {
      return false;
    }
    NestOf(b.open.around, 0, nest.value, IpFields(ip));
    ok := b.PutAllCheck(IpFields(ip));
    if ok {
      b.NestEnd(nest.value);
    } else {
      b.NestCancel(nest.value);
    }
  }

  lemma IpAttrsStep(values: seq<AllowedIp>, at: nat, to: nat)
    requires AllSized(values) && at <= to < |values|
    ensures AllSized(values[at..to]) && AllSized(values[at..to + 1])
    ensures IpAttrs(values[at..to + 1]) == IpAttrs(values[at..to]) + [IpAttr(values[to])]
  {
    assert values[at..to + 1] == values[at..to] + [values[to]];
  }

  /** The loop over the list, inside the opened nest. */
  method PutIpLoop(b: Message, peer: PeerNode, from: IpNode, ghost values: seq<AllowedIp>, ghost at: nat)
    returns (rest: IpNode?, ghost to: nat)
    requires b.Valid() && peer.Linked() && values == peer.IpValues() && AllSized(values)
    requires at < |values| && from == peer.ips[at]
    modifies b, b.buf
    ensures b.Valid() && b.buf == old(b.buf)
    ensures to == IpsFit(values, at, old(b.len), b.buf.Length)
    ensures rest == if to < |values| then peer.ips[to] else null
    ensures AllSized(values[at..to]) && b.open == GrownAll(old(b.open), IpAttrs(values[at..to]))
  {
    hide IpAttrs, GrownAll, EncodeAll, IpAttr, Encode, IpsFit;
    ghost var inner, nodes := b.open, peer.ips;
    rest, to := from, at;
    NoIps(values, at, inner);
    while rest != null
      invariant b.Valid() && b.buf == old(b.buf)
      invariant at <= to <= |values| && rest == if to < |values| then nodes[to] else null
      invariant IpsFit(values, at, old(b.len), b.buf.Length) == IpsFit(values, to, b.len, b.buf.Length)
      invariant AllSized(values[at..to]) && b.open == GrownAll(inner, IpAttrs(values[at..to]))
      invariant forall k {:trigger nodes[k].ip} :: 0 <= k < |nodes| ==> nodes[k].ip == values[k]
      invariant forall k {:trigger nodes[k].next} :: 0 <= k < |nodes| ==>
        nodes[k].next == if k + 1 < |nodes| then nodes[k + 1] else null
      decreases |values| - to
    {
      var ip, next := rest.ip, rest.next;
      IpsFitStep(values, to, b.len, b.buf.Length);
      var ok := PutNextIp(b, ip, values, inner, at, to);
      if !ok {
        break;
      }
      rest, to := next, to + 1;
    }
    if to == |values| {
      IpsFitStep(values, to, b.len, b.buf.Length);
    }
  }

  lemma NoIps(values: seq<AllowedIp>, at: nat, inner: Open)
    requires AllSized(values) && at <= |values|
    ensures AllSized(values[at..at]) && inner == GrownAll(inner, IpAttrs(values[at..at]))
  {
    assert IpAttrs(values[at..at]) == [];
  }

  lemma IpsFitStep(ips: seq<AllowedIp>, at: nat, len: nat, buflen: nat)
    requires AllSized(ips) && at <= |ips|
    ensures IpsFit(ips, at, len, buflen)
         == if at < |ips| && len + |Encode(IpAttr(ips[at]))| <= buflen
            then IpsFit(ips, at + 1, len + |Encode(IpAttr(ips[at]))|, buflen) else at
  {
  }

  /** One turn of that loop, which goes on while the IP at the cursor fits. */
  method PutNextIp(b: Message, ip: AllowedIp, ghost values: seq<AllowedIp>, ghost inner: Open, ghost at: nat,
                   ghost to: nat)
    returns (ok: bool)
    requires b.Valid() && AllSized(values) && at <= to < |values| && ip == values[to]
    requires AllSized(values[at..to]) && b.open == GrownAll(inner, IpAttrs(values[at..to]))
    modifies b, b.buf
    ensures b.Valid() && b.buf == old(b.buf) && AllSized(values[at..to + 1])
    ensures b.open == GrownAll(inner, IpAttrs(values[at..if ok then to + 1 else to]))
    ensures ok <==> old(b.len) + |Encode(IpAttr(ip))| <= b.buf.Length
    ensures b.len == old(b.len) + if ok then |Encode(IpAttr(ip))| else 0
  {
    hide EncodeAll, Encode, IpAttr;
    IpAttrsStep(values, at, to);
    hide IpAttrs;
    GrownAllOne(inner, IpAttrs(values[at..to]), IpAttr(ip));
    hide GrownAll;
    ok := PutAllowedIp(b, ip);
  }

  /** The allowed IPs of a peer from a given one on, as many as fit. */
  method PutAllowedIps(b: Message, peer: PeerNode, from: IpNode, ghost values: seq<AllowedIp>, ghost at: nat)
    returns (rest: IpNode?, ghost nest: bool, ghost to: nat)
    requires b.Valid() && peer.Linked() && values == peer.IpValues() && AllSized(values)
    requires at < |values| && from == peer.ips[at]
    modifies b, b.buf
    ensures b.Valid() && b.buf == old(b.buf)
    ensures nest <==> old(b.len) + 4 <= b.buf.Length
    ensures to == if nest then IpsFit(values, at, old(b.len) + 4, b.buf.Length) else at
    ensures rest == if to < |values| then peer.ips[to] else null
    ensures AllSized(values[at..to])
    ensures nest ==> b.open == Grown(old(b.open), Attr(NESTED + 9, EncodeAll(IpAttrs(values[at..to]))))
    ensures !nest ==> b.open == old(b.open)
  {
    hide IpsFit, EncodeAll, IpAttrs;
    rest, to, nest := from, at, false;
    var start := b.NestStartCheck(9);
    if start.Some? {
      nest := true;
      rest, to := PutIpLoop(b, peer, from, values, at);
      NestOf(old(b.open), 9, start.value, IpAttrs(values[at..to]));
      b.NestEnd(start.value);
    }
  }

  /** The fragment that comes next for a peer whose list has these values. */
  ghost function Upcoming(info: PeerInfo, values: seq<AllowedIp>, first: bool, at: nat, len: nat, buflen: nat)
    : (r: Option<(Frag, nat)>)
    requires info.Sized() && AllSized(values) && at <= |values| && (first ==> at == 0) && (!first ==> at < |values|)
    ensures r.Some? ==> SizedFrag(r.value.0) && r.value.1 <= |values|
  {
    NextFrag(Peer(info, values), first, at, len, buflen)
  }

  /** One turn of the loop over the peers: the whole peer, or what is left of it
      from allowed IP number at on, as much as fits. Nothing when not even the
      attributes before the allowed IPs fit. */
  method PutPeer(b: Message, peer: PeerNode, from: IpNode?, ghost values: seq<AllowedIp>, ghost at: nat)
    returns (sent: bool, rest: IpNode?)
    requires b.Valid() && peer.Linked() && values == peer.IpValues() && AllSized(values) && peer.info.Sized()
    requires if from == null then at == 0 else at < |values| && from == peer.ips[at]
    modifies b, b.buf
    ensures b.Valid() && b.buf == old(b.buf)
    ensures sent == Upcoming(peer.info, values, from == null, at, old(b.len), b.buf.Length).Some?
    ensures !sent ==> b.open == old(b.open) && rest == from
    ensures sent ==>
      var (frag, to) := Upcoming(peer.info, values, from == null, at, old(b.len), b.buf.Length).value;
      b.open == Grown(old(b.open), FragAttr(frag)) && rest == if to < |values| then peer.ips[to] else null
  {
    hide PeerFields, EncodeAll, IpsFit, FragAttr;
    ghost var outer := b.open;
    var first := from == null;
    rest := from;
    var nest := b.NestStartCheck(0);
    if nest.None? {
      return false, rest;
    }
    sent := b.PutAllCheck(PeerFields(peer.info, first));
    if !sent {
      b.NestCancel(nest.value);
      return;
    }
    rest := FinishPeer(b, peer, from, values, at, outer, nest.value, old(b.len));
  }

  /** The allowed IPs and the end of a peer whose other attributes are in place. */
  method FinishPeer(b: Message, peer: PeerNode, from: IpNode?, ghost values: seq<AllowedIp>, ghost at: nat,
                    ghost outer: Open, start: nat, ghost len: nat)
    returns (rest: IpNode?)
    requires b.Valid() && peer.Linked() && values == peer.IpValues() && AllSized(values) && peer.info.Sized()
    requires if from == null then at == 0 else at < |values| && from == peer.ips[at]
    requires b.open == GrownAll(Nest(outer, 0, start, [], []), PeerFields(peer.info, from == null))
    requires b.len == HeaderEnd(peer.info, from == null, len) <= b.buf.Length
    modifies b, b.buf
    ensures b.Valid() && b.buf == old(b.buf)
    ensures var r := Upcoming(peer.info, values, from == null, at, len, b.buf.Length);
      r.Some? && b.open == Grown(outer, FragAttr(r.value.0))
      && rest == if r.value.1 < |values| then peer.ips[r.value.1] else null
  {
    hide PeerFields, EncodeAll, IpsFit, IpAttrs, HeaderEnd;
    ghost var fields, nest, to := PeerFields(peer.info, from == null), false, at;
    rest := from;
    if peer.first != null {
      rest, nest, to := PutAllowedIps(b, peer, if from == null then peer.first else from, values, at);
    }
    ghost var frag := Frag(peer.info, from == null, nest, values[at..to]);
    assert Upcoming(peer.info, values, from == null, at, len, b.buf.Length) == Some((frag, to));
    ghost var tail := if nest then [Attr(NESTED + 9, EncodeAll(IpAttrs(frag.ips)))] else [];
    PeerClosed(outer, start, fields, tail);
    b.NestEnd(start);
  }

  lemma {:induction false} PeerClosed(outer: Open, start: nat, fields: seq<Attr>, tail: seq<Attr>)
    requires |tail| <= 1
    ensures var o := GrownAll(Nest(outer, 0, start, [], []), fields);
      Closed(if tail == [] then o else Grown(o, tail[0])) == Grown(outer, Attr(NESTED, EncodeAll(fields + tail)))
  {
    if tail == [] {
      assert fields + tail == fields;
    } else {
      assert tail == [tail[0]];
      GrownAllOne(Nest(outer, 0, start, [], []), fields, tail[0]);
    }
    NestOf(outer, 0, start, fields + tail);
  }

  //
  // Whole messages
  //

  /** The nodes of a peer list and of the allowed IP list of each peer. */
  datatype Nodes = Nodes(peers: seq<PeerNode>, ips: seq<seq<IpNode>>)

  /** The lists of d run through the nodes ns and hold the peers ps. */
  ghost predicate Mirrors(d: Device, ns: Nodes, ps: seq<Peer>)
    reads d, d.Repr
  {
    d.Linked() && d.Values() == ps && d.info.Sized() && SizedPeers(ps)
    && d.peers == ns.peers && |ns.ips| == |ps| && forall k :: 0 <= k < |ps| ==> d.peers[k].ips == ns.ips[k]
  }

  ghost predicate AtPos(ns: Nodes, pos: Pos, peer: PeerNode?, from: IpNode?) {
    |ns.ips| == |ns.peers|
    && peer == (if pos.peer < |ns.peers| then ns.peers[pos.peer] else null)
    && from == if pos.sent && pos.peer < |ns.peers| && pos.ip < |ns.ips[pos.peer]|
               then ns.ips[pos.peer][pos.ip] else null
  }

  lemma MirroredPeer(d: Device, ns: Nodes, ps: seq<Peer>, k: nat)
    requires Mirrors(d, ns, ps) && k < |ps|
    ensures |ns.peers| == |ns.ips| == |ps| && d.peers[k] == ns.peers[k] && d.peers[k].ips == ns.ips[k]
    ensures d.peers[k].Linked() && d.peers[k].info == ps[k].info && d.peers[k].IpValues() == ps[k].ips
    ensures d.peers[k].next == if k + 1 < |ps| then ns.peers[k + 1] else null
    ensures SizedPeer(ps[k])
  {
    assert d.peers[k].Value() == d.Values()[k];
  }

  lemma FragAttrsStep(fs: seq<Frag>, f: Frag)
    requires SizedFrag(f) && SizedFrags(fs)
    ensures FragAttrs(fs + [f]) == FragAttrs(fs) + [FragAttr(f)]
  {
  }

  /** The loop over peers has sent fs and is at pos, where it goes on if more holds. */
  ghost predicate Filling(ps: seq<Peer>, pos0: Pos, len0: nat, fs: seq<Frag>, pos: Pos, len: nat, more: bool,
                          buflen: nat)
    requires SizedPeers(ps) && ValidPos(ps, pos0)
  {
    ValidPos(ps, pos)
    && var (rest, end) := if more then Fill(ps, pos, len, buflen) else ([], pos);
       Fill(ps, pos0, len0, buflen) == (fs + rest, end)
  }

  lemma FillingStep(ps: seq<Peer>, pos0: Pos, len0: nat, fs: seq<Frag>, pos: Pos, len: nat, buflen: nat)
    requires SizedPeers(ps) && ValidPos(ps, pos0) && Filling(ps, pos0, len0, fs, pos, len, true, buflen)
    requires pos.peer < |ps|
    ensures var r := NextFrag(ps[pos.peer], !pos.sent, pos.ip, len, buflen);
      match r
      case None => Filling(ps, pos0, len0, fs, pos, len, false, buflen)
      case Some((f, to)) =>
        var next := NextPos(ps, pos, to);
        Filling(ps, pos0, len0, fs + [f], next, len + |Encode(FragAttr(f))|, !next.sent, buflen)
  {
    hide NextFrag, FragAttr, Encode;
    var r := NextFrag(ps[pos.peer], !pos.sent, pos.ip, len, buflen);
    assert fs + [] == fs;
    if r.Some? {
      var (f, to) := r.value;
      var next := NextPos(ps, pos, to);
      assert fs + [f] + [] == fs + [f];
      if !next.sent {
        var rest := Fill(ps, next, len + |Encode(FragAttr(f))|, buflen).0;
        assert fs + [f] + rest == fs + ([f] + rest);
      }
    }
  }

  /** The loop over the peers, inside the opened nest, until the list or the room ends. */
  method PutPeers(b: Message, d: Device, peer0: PeerNode, from0: IpNode?, ghost ns: Nodes, ghost ps: seq<Peer>,
                  ghost pos0: Pos)
    returns (peer: PeerNode?, from: IpNode?, ghost fs: seq<Frag>, ghost pos: Pos)
    requires b.Valid() && {b, b.buf} !! d.Repr && Mirrors(d, ns, ps) && ValidPos(ps, pos0)
    requires AtPos(ns, pos0, peer0, from0)
    modifies b, b.buf
    ensures b.Valid() && b.buf == old(b.buf)
    ensures (fs, pos) == Fill(ps, pos0, old(b.len), b.buf.Length) && AtPos(ns, pos, peer, from)
    ensures SizedFrags(fs) && b.open == GrownAll(old(b.open), FragAttrs(fs))
  {
    ghost var inner := b.open;
    peer, from, fs, pos := peer0, from0, [], pos0;
    NothingFilled(ps, pos0, b.len, b.buf.Length, inner);
    hide Fill, FragAttrs, GrownAll, Filling, SizedFrag;
    var more := true;
    while more && peer != null
      invariant b.Valid() && b.buf == old(b.buf) && Mirrors(d, ns, ps)
      invariant Filling(ps, pos0, old(b.len), fs, pos, b.len, more, b.buf.Length) && AtPos(ns, pos, peer, from)
      invariant SizedFrags(fs) && b.open == GrownAll(inner, FragAttrs(fs))
      decreases |ps| - pos.peer, more
    {
      more, peer, from, fs, pos := PutPeerAt(b, d, peer, from, ns, ps, fs, inner, pos0, old(b.len), pos);
    }
    Filled(ps, pos0, old(b.len), fs, pos, b.len, more, b.buf.Length);
  }

  /** The loop is through when the list ends or nothing more fits. */
  lemma {:induction false} Filled(ps: seq<Peer>, pos0: Pos, len0: nat, fs: seq<Frag>, pos: Pos, len: nat, more: bool,
                                  buflen: nat)
    requires SizedPeers(ps) && ValidPos(ps, pos0) && Filling(ps, pos0, len0, fs, pos, len, more, buflen)
    requires more ==> pos.peer == |ps|
    ensures (fs, pos) == Fill(ps, pos0, len0, buflen)
  {
    if more {
      NothingLeft(ps, pos, len, buflen);
    }
    hide Fill;
    assert fs + [] == fs;
  }

  lemma NothingFilled(ps: seq<Peer>, pos: Pos, len: nat, buflen: nat, inner: Open)
    requires SizedPeers(ps) && ValidPos(ps, pos)
    ensures Filling(ps, pos, len, [], pos, len, true, buflen) && inner == GrownAll(inner, FragAttrs([]))
  {
    hide Fill, FragAttr;
    var fs := Fill(ps, pos, len, buflen).0;
    assert [] + fs == fs;
    assert FragAttrs([]) == [];
  }

  lemma {:induction false} NothingLeft(ps: seq<Peer>, pos: Pos, len: nat, buflen: nat)
    requires SizedPeers(ps) && ValidPos(ps, pos) && pos.peer == |ps|
    ensures Fill(ps, pos, len, buflen) == ([], pos)
  {
  }

  /** One turn of that loop: the peer at the cursor, and the cursor moved past what was sent. */
  method PutPeerAt(b: Message, d: Device, peer0: PeerNode, from0: IpNode?, ghost ns: Nodes, ghost ps: seq<Peer>,
                   ghost fs0: seq<Frag>, ghost inner: Open, ghost begin: Pos, ghost len0: nat, ghost pos0: Pos)
    returns (more: bool, peer: PeerNode?, from: IpNode?, ghost fs: seq<Frag>, ghost pos: Pos)
    requires b.Valid() && {b, b.buf} !! d.Repr && Mirrors(d, ns, ps) && ValidPos(ps, begin)
    requires AtPos(ns, pos0, peer0, from0)
    requires Filling(ps, begin, len0, fs0, pos0, b.len, true, b.buf.Length)
    requires SizedFrags(fs0) && b.open == GrownAll(inner, FragAttrs(fs0))
    modifies b, b.buf
    ensures b.Valid() && b.buf == old(b.buf)
    ensures Filling(ps, begin, len0, fs, pos, b.len, more, b.buf.Length) && AtPos(ns, pos, peer, from)
    ensures SizedFrags(fs) && b.open == GrownAll(inner, FragAttrs(fs))
    ensures pos0.peer <= pos.peer && (more ==> pos0.peer < pos.peer)
  {
    hide Fill, FragAttrs, FragAttr, GrownAll, Encode, EncodeAll, NextFrag, SizedFrag;
    MirroredPeer(d, ns, ps, pos0.peer);
    FillingStep(ps, begin, len0, fs0, pos0, b.len, b.buf.Length);
    var next := peer0.next;
    b.LenIs();
    var sent, rest := PutPeer(b, peer0, from0, ps[pos0.peer].ips, pos0.ip);
    b.LenIs();
    more, peer, from, fs, pos := false, peer0, from0, fs0, pos0;
    if sent {
      ghost var (frag, to) := NextFrag(ps[pos0.peer], !pos0.sent, pos0.ip, old(b.len), b.buf.Length).value;
      FragSent(fs0, inner, frag);
      more, from := rest == null, rest;
      peer := if rest == null then next else peer0;
      fs, pos := fs0 + [frag], NextPos(ps, pos0, to);
    }
  }

  /** What sending one fragment does to what is encoded. */
  lemma FragSent(fs: seq<Frag>, inner: Open, f: Frag)
    requires SizedFrag(f) && SizedFrags(fs)
    ensures SizedFrags(fs + [f])
    ensures Grown(GrownAll(inner, FragAttrs(fs)), FragAttr(f)) == GrownAll(inner, FragAttrs(fs + [f]))
    ensures LenOf(Grown(GrownAll(inner, FragAttrs(fs)), FragAttr(f)))
         == LenOf(GrownAll(inner, FragAttrs(fs))) + |Encode(FragAttr(f))|
  {
    hide FragAttr, Encode;
    FragAttrsStep(fs, f);
    hide FragAttrs;
    GrownAllOne(inner, FragAttrs(fs), FragAttr(f));
  }

  /** The bytes after the message header. */
  function Payload(msg: seq<Byte>): seq<Byte>
    requires |msg| >= MESSAGE_HEADER
  {
    msg[MESSAGE_HEADER..]
  }

  /** The nest of peers of one message. */
  method FillPeers(b: Message, d: Device, peer0: PeerNode, from0: IpNode?, ghost ns: Nodes, ghost ps: seq<Peer>,
                   ghost pos0: Pos)
    returns (peer: PeerNode?, from: IpNode?, ghost fs: seq<Frag>, ghost pos: Pos)
    requires b.Valid() && {b, b.buf} !! d.Repr && Mirrors(d, ns, ps) && ValidPos(ps, pos0)
    requires AtPos(ns, pos0, peer0, from0)
    requires b.len + 4 <= b.buf.Length
    modifies b, b.buf
    ensures b.Valid() && b.buf == old(b.buf)
    ensures (fs, pos) == Fill(ps, pos0, old(b.len) + 4, b.buf.Length) && AtPos(ns, pos, peer, from)
    ensures SizedFrags(fs) && b.open == Grown(old(b.open), Attr(NESTED + 8, EncodeAll(FragAttrs(fs))))
  {
    hide Fill, FragAttrs, EncodeAll;
    ghost var outer := b.open;
    var start := b.NestStart(8);
    peer, from, fs, pos := PutPeers(b, d, peer0, from0, ns, ps, pos0);
    NestOf(outer, 8, start, FragAttrs(fs));
    b.NestEnd(start);
  }

  /** mnlg_msg_prepare and the device attributes, whose room is never checked. */
  method StartMessage(info: DeviceInfo, first: bool, buflen: nat) returns (b: Message)
    requires 228 <= buflen && info.Sized()
    ensures fresh(b) && fresh(b.buf) && b.Valid() && b.buf.Length == buflen
    ensures b.open == GrownAll(Root([], []), DeviceFields(info, first)) && b.len + 4 == FirstFrag(info, first)
  {
    hide DeviceFields, EncodeAll;
    b := new Message(buflen);
    DeviceFieldsSize(info, first);
    var fits := b.PutAllCheck(DeviceFields(info, first));
  }

  lemma MessageBytes(b: Message, info: DeviceInfo, first: bool, anyPeers: bool, fs: seq<Frag>)
    requires b.Valid() && info.Sized() && SizedFrags(fs)
    requires var o := GrownAll(Root([], []), DeviceFields(info, first));
      b.open == if anyPeers then Grown(o, Attr(NESTED + 8, EncodeAll(FragAttrs(fs)))) else o
    ensures MESSAGE_HEADER <= b.len <= b.buf.Length
    ensures Payload(b.buf[..b.len]) == EncodeAll(MessageAttrs(info, first, anyPeers, fs))
  {
    hide DeviceFields, FragAttrs, EncodeAll, Matches;
    assert Inspect(0);
    assert b.open.attrs == MessageAttrs(info, first, anyPeers, fs);
  }

  /** One message: from label again to label send. */
  method BuildMessage(d: Device, buflen: nat, peer0: PeerNode?, from0: IpNode?, ghost ns: Nodes, ghost ps: seq<Peer>,
                      ghost pos0: Pos)
    returns (msg: seq<Byte>, peer: PeerNode?, from: IpNode?, ghost fs: seq<Frag>, ghost pos: Pos)
    requires 228 <= buflen && Mirrors(d, ns, ps) && ValidPos(ps, pos0) && (pos0.peer < |ps| || ps == [])
    requires if peer0 == null then pos0 == Pos(0, false, 0) && from0 == null else AtPos(ns, pos0, peer0, from0)
    ensures MESSAGE_HEADER <= |msg| <= buflen && Carries(msg, buflen, d.info, peer0 == null, ps != [], fs)
    ensures (fs, pos) == Fill(ps, pos0, FirstFrag(d.info, peer0 == null), buflen) && AtPos(ns, pos, peer, from)
  {
    hide DeviceFields, FragAttrs, EncodeAll, FirstFrag;
    FirstFragRoom(d.info, peer0 == null, buflen);
    NothingToFill(FirstFrag(d.info, peer0 == null), buflen);
    hide Fill;
    var b := StartMessage(d.info, peer0 == null, buflen);
    peer, from, fs, pos := peer0, from0, [], pos0;
    if d.first != null {
      peer := if peer0 == null then d.first else peer0;
      peer, from, fs, pos := FillPeers(b, d, peer, from, ns, ps, pos0);
    }
    msg := b.buf[..b.len];
    MessageBytes(b, d.info, peer0 == null, ps != [], fs);
  }

  lemma {:induction false} NothingToFill(len: nat, buflen: nat)
    ensures Fill([], Pos(0, false, 0), len, buflen) == ([], Pos(0, false, 0))
  {
  }

  /** A message of buflen bytes at most that carries the fragments fs. */
  predicate Carries(msg: seq<Byte>, buflen: nat, info: DeviceInfo, first: bool, anyPeers: bool, fs: seq<Frag>)
    requires info.Sized()
  {
    MESSAGE_HEADER <= |msg| <= buflen && SizedFrags(fs)
    && Payload(msg) == EncodeAll(MessageAttrs(info, first, anyPeers, fs))
  }

  /** Every message fits and carries its fragments; only the first has the device attributes. */
  predicate AllCarry(messages: seq<seq<Byte>>, buflen: nat, info: DeviceInfo, anyPeers: bool, frags: seq<seq<Frag>>) {
    info.Sized() && |messages| == |frags|
    && forall i :: 0 <= i < |messages| ==> Carries(messages[i], buflen, info, i == 0, anyPeers, frags[i])
  }

  lemma AllCarryMore(messages: seq<seq<Byte>>, buflen: nat, info: DeviceInfo, anyPeers: bool, frags: seq<seq<Frag>>,
                     msg: seq<Byte>, fs: seq<Frag>)
    requires AllCarry(messages, buflen, info, anyPeers, frags)
    requires Carries(msg, buflen, info, messages == [], anyPeers, fs)
    ensures AllCarry(messages + [msg], buflen, info, anyPeers, frags + [fs])
  {
    var ms, fss := messages + [msg], frags + [fs];
    forall i | 0 <= i < |ms|
      ensures Carries(ms[i], buflen, info, i == 0, anyPeers, fss[i])
    {
      if i < |messages| {
        assert ms[i] == messages[i] && fss[i] == frags[i];
      }
    }
  }

  /** wg_set_device: the messages sent, each acknowledged before the next is built.

      The device attributes are in the first message only, every message fits the
      buffer, and the fragments are those that Fragments gives. Joined in order they
      are the peers: each peer and each allowed IP exactly once, in list order. */
  method SetDevice(d: Device, buflen: nat, ghost ns: Nodes, ghost ps: seq<Peer>) returns (messages: seq<seq<Byte>>)
    requires 228 <= buflen && Mirrors(d, ns, ps)
    ensures |messages| > 0 && AllCarry(messages, buflen, d.info, ps != [], Fragments(d.info, ps, buflen))
    ensures Join(Flatten(Fragments(d.info, ps, buflen))) == ps && Resumes(Flatten(Fragments(d.info, ps, buflen)))
  {
    hide Fill, Join, Resumes, Flatten, FirstFrag, MessageAttrs, Carries, FragmentsFrom;
    FragmentsJoin(d.info, ps, buflen);
    var peer: PeerNode?, from: IpNode? := null, null;
    ghost var pos, frags: seq<seq<Frag>> := Pos(0, false, 0), [];
    messages := [];
    var again := true;
    assert [] + Fragments(d.info, ps, buflen) == Fragments(d.info, ps, buflen);
    while again
      invariant AllCarry(messages, buflen, d.info, ps != [], frags) && (!again ==> 0 < |messages|) && ValidPos(ps, pos)
      invariant again ==> (peer == null <==> messages == []) && (pos.peer < |ps| || ps == [])
      invariant again ==> if peer == null then pos == Pos(0, false, 0) && from == null else AtPos(ns, pos, peer, from)
      invariant Fragments(d.info, ps, buflen)
             == frags + if again then FragmentsFrom(d.info, ps, pos, messages == [], buflen) else []
      decreases again, |ps| - pos.peer, !pos.sent, IpsLeft(ps, pos)
    {
      var msg;
      ghost var fs, end;
      msg, peer, from, fs, end := BuildMessage(d, buflen, peer, from, ns, ps, pos);
      MessageSent(d.info, ps, pos, messages == [], buflen, frags);
      AllCarryMore(messages, buflen, d.info, ps != [], frags, msg, fs);
      messages, frags, pos := messages + [msg], frags + [fs], end;
      again := peer != null;
    }
  }

  /** One message sent of those that are left. */
  lemma {:induction false} MessageSent(info: DeviceInfo, ps: seq<Peer>, pos: Pos, first: bool, buflen: nat,
                                       frags: seq<seq<Frag>>)
    requires info.Sized() && SizedPeers(ps) && ValidPos(ps, pos) && 228 <= buflen && (pos.peer < |ps| || ps == [])
    ensures var (fs, end) := Fill(ps, pos, FirstFrag(info, first), buflen);
      frags + FragmentsFrom(info, ps, pos, first, buflen)
      == frags + [fs] + (if end.peer < |ps| then FragmentsFrom(info, ps, end, false, buflen) else [])
      && (end.peer < |ps| ==> Further(pos, end))
  {
    hide Fill, FirstFrag;
    var (fs, end) := Fill(ps, pos, FirstFrag(info, first), buflen);
    FirstFragRoom(info, first, buflen);
    if pos.peer < |ps| {
      FillProgress(ps, pos, FirstFrag(info, first), buflen);
    }
    var rest := if end.peer < |ps| then FragmentsFrom(info, ps, end, false, buflen) else [];
    assert frags + [fs] + rest == frags + ([fs] + rest);
  }
}
