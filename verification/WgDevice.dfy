/** The structures of contrib/embeddable-wg-library/wireguard.h: values, and the
    linked lists that hold them. */
module WgDevice {
  import opened Words
  import opened Netlink

  const AF_INET: nat := 2
  const AF_INET6: nat := 10

  /** wg_allowedip without its link. The address union has 16 bytes; an IPv4
      address is the first four of them. */
  datatype AllowedIp = AllowedIp(family: nat, ip: seq<Byte>, cidr: Byte) {
    predicate Sized() {
      family < 0x1_0000 && |ip| == 16
    }

    /** What the reader insists on. */
    predicate Legal() {
      (family == AF_INET && cidr <= 32) || (family == AF_INET6 && cidr <= 128)
    }
  }

  /** wg_peer without its lists; the flag word is spelled out bit by bit. The
      endpoint union has 28 bytes beginning with the address family. */
  datatype PeerInfo = PeerInfo(
    removeMe: bool, replaceAllowedIps: bool, hasPublicKey: bool, hasPresharedKey: bool, hasKeepalive: bool,
    publicKey: seq<Byte>, presharedKey: seq<Byte>, endpoint: seq<Byte>, keepalive: nat,
    lastHandshake: seq<Byte>, rxBytes: nat, txBytes: nat)
  {
    predicate Sized() {
      |publicKey| == 32 && |presharedKey| == 32 && |endpoint| == 28 && keepalive < 0x1_0000
    }

    function EndpointFamily(): nat
      requires |endpoint| == 28
    {
      GetLe16(endpoint)
    }
  }

  datatype Peer = Peer(info: PeerInfo, ips: seq<AllowedIp>) {
    predicate Sized() {
      info.Sized() && forall k :: 0 <= k < |ips| ==> ips[k].Sized()
    }
  }

  /** wg_device without its peers. The name is the text before its NUL. */
  datatype DeviceInfo = DeviceInfo(
    replacePeers: bool, hasPrivateKey: bool, hasPublicKey: bool, hasListenPort: bool, hasFwmark: bool,
    name: seq<Byte>, ifindex: nat, publicKey: seq<Byte>, privateKey: seq<Byte>, fwmark: nat, listenPort: nat)
  {
    predicate Sized() {
      |name| <= 15 && 0 !in name && |publicKey| == 32 && |privateKey| == 32
      && ifindex < 0x1_0000_0000 && fwmark < 0x1_0000_0000 && listenPort < 0x1_0000
    }
  }

  const ZERO_IP: AllowedIp := AllowedIp(0, Zeros(16), 0)
  const ZERO_PEER: PeerInfo :=
    PeerInfo(false, false, false, false, false, Zeros(32), Zeros(32), Zeros(28), 0, Zeros(16), 0, 0)
  const ZERO_DEVICE: DeviceInfo :=
    DeviceInfo(false, false, false, false, false, [], 0, Zeros(32), Zeros(32), 0, 0)

  //
  // Linked lists
  //

  class IpNode {
    var ip: AllowedIp
    var next: IpNode?
    ghost var owner: PeerNode  // whose list it is in

    constructor (ip: AllowedIp, ghost owner: PeerNode)
      ensures this.ip == ip && next == null && this.owner == owner
    {
      this.ip := ip;
      next := null;
      this.owner := owner;
    }
  }

  ghost predicate Distinct<T>(s: seq<T>) {
    forall j, k :: 0 <= j < k < |s| ==> s[j] != s[k]
  }

  class PeerNode {
    var info: PeerInfo
    var first: IpNode?
    var last: IpNode?
    var next: PeerNode?
    ghost var ips: seq<IpNode>

    constructor (info: PeerInfo)
      ensures this.info == info && next == null && ips == [] && Linked() && TailKnown()
    {
      this.info := info;
      first, last, next := null, null, null;
      ips := [];
    }

    /** first and the next links run through exactly ips, nodes of no other peer. */
    ghost predicate Linked()
      reads this`first, this`ips, ips`next, ips`owner
    {
      first == (if ips == [] then null else ips[0]) && Distinct(ips)
      && (forall k :: 0 <= k < |ips| ==> ips[k].owner == this)
      && forall k {:trigger ips[k].next} :: 0 <= k < |ips| ==> ips[k].next == if k + 1 < |ips| then ips[k + 1] else null
    }

    /** last is the last node, or null for an empty list. */
    ghost predicate TailKnown()
      reads this`last, this`ips
    {
      last == if ips == [] then null else ips[|ips| - 1]
    }

    ghost function IpValues(): (r: seq<AllowedIp>)
      reads this`ips, ips
      ensures |r| == |ips|
    {
      var nodes := ips;
      seq(|nodes|, k requires 0 <= k < |nodes| reads nodes => nodes[k].ip)
    }

    ghost function Value(): Peer
      reads this`info, this`ips, ips
    {
      Peer(info, IpValues())
    }
  }

  class Device {
    var info: DeviceInfo
    var first: PeerNode?
    var last: PeerNode?
    ghost var peers: seq<PeerNode>
    ghost var Repr: set<object>

    constructor (info: DeviceInfo)
      ensures this.info == info && peers == [] && Linked() && TailKnown() && fresh(Repr)
    {
      this.info := info;
      first, last := null, null;
      peers := [];
      Repr := {this};
    }

    ghost predicate Owns()
      reads this, Repr
    {
      this in Repr
      && (forall k :: 0 <= k < |peers| ==> peers[k] in Repr)
      && (forall k, n :: 0 <= k < |peers| && n in peers[k].ips ==> n in Repr)
    }

    /** first and the next links run through exactly peers. */
    ghost predicate Chained()
      reads this`first, this`peers, peers`next
    {
      first == (if peers == [] then null else peers[0]) && Distinct(peers)
      && forall k {:trigger peers[k].next} :: 0 <= k < |peers| ==>
           peers[k].next == if k + 1 < |peers| then peers[k + 1] else null
    }

    ghost predicate IpsChained()
      requires Owns()
      reads this, Repr
    {
      forall k :: 0 <= k < |peers| ==> peers[k].Linked()
    }

    ghost predicate Linked()
      reads this, Repr
    {
      Owns() && Chained() && IpsChained()
    }

    ghost predicate TailKnown()
      reads this`last, this`peers, peers`last, peers`ips
    {
      (peers != [] ==> last == peers[|peers| - 1])
      && forall k :: 0 <= k < |peers| ==> peers[k].TailKnown()
    }

    ghost function Values(): (r: seq<Peer>)
      requires Owns()
      reads this, Repr
      ensures |r| == |peers|
    {
      seq(|peers|, k requires 0 <= k < |peers| && Owns() reads this, Repr => peers[k].Value())
    }
  }
}
