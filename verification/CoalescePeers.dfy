/** coalesce_peers: re-joining in place the neighbours of a peer list that have
    the same public key. */
module CoalescePeers {
  import opened WgDevice

  function Merge(a: Peer, b: Peer): Peer {
    Peer(a.info, a.ips + b.ips)
  }

  /** Neighbours with equal keys merged into the first of them. */
  function Coalesce(ps: seq<Peer>): (r: seq<Peer>)
    decreases |ps|
  {
    if |ps| <= 1 then ps
    else if ps[0].info.publicKey == ps[1].info.publicKey then Coalesce([Merge(ps[0], ps[1])] + ps[2..])
    else [ps[0]] + Coalesce(ps[1..])
  }

  /** Absorbing an empty fragment leaves last_allowedip null, so the list it was
      absorbed into must be empty too or end the run of equal keys: otherwise
      the next append goes through a null pointer. tail says whether the last
      pointer of the first peer is still good. */
  predicate Safe(ps: seq<Peer>, tail: bool)
    decreases |ps|
  {
    |ps| <= 1
    || if ps[0].info.publicKey == ps[1].info.publicKey
       then (ps[0].ips != [] ==> tail) && Safe([Merge(ps[0], ps[1])] + ps[2..], ps[0].ips == [] || ps[1].ips != [])
       else Safe(ps[1..], true)
  }

  /** A list that is not empty but whose last pointer is lost. */
  ghost predicate Dangling(peer: PeerNode)
    reads peer`last, peer`ips
  {
    peer.ips != [] && peer.last == null
  }

  /** The list of next appended to the list of peer. It is a fault when the last
      pointer of peer is null although its list is not empty: there the source
      follows a null pointer. */
  method AbsorbIps(peer: PeerNode, next: PeerNode) returns (fault: bool)
    requires peer != next && peer.Linked() && next.Linked() && next.TailKnown() && (Dangling(peer) || peer.TailKnown())
    modifies peer`first, peer`last, peer`ips, peer.ips`next, next.ips`owner
    ensures fault <==> old(Dangling(peer))
    ensures !fault ==> peer.Linked() && peer.ips == old(peer.ips + next.ips) && peer.last == next.last
    ensures !fault ==> peer.IpValues() == old(peer.IpValues() + next.IpValues())
    ensures !fault ==> if old(peer.ips == [] || next.ips != []) then peer.TailKnown() else Dangling(peer)
  {
    ghost var a, b := peer.ips, next.ips;
    assert forall k :: 0 <= k < |a| ==> a[k].owner == peer;
    assert forall k :: 0 <= k < |b| ==> b[k].owner == next;
    if peer.first == null {
      peer.first := next.first;
      peer.last := next.last;
    } else {
      if peer.last == null {
        return true;
      }
      peer.last.next := next.first;
      peer.last := next.last;
    }
    peer.ips := a + b;
    forall k | 0 <= k < |b| {
      b[k].owner := peer;
    }
    fault := false;
  }

  /** These peers are well linked through these nodes and have these values. */
  ghost predicate Kept(peers: seq<PeerNode>, values: seq<Peer>, nodes: set<IpNode>)
    reads peers`info, peers`first, peers`ips, nodes
  {
    |peers| == |values|
    && (forall k, n :: 0 <= k < |peers| && n in peers[k].ips ==> n in nodes)
    && forall k :: 0 <= k < |peers| ==> peers[k].Linked() && peers[k].Value() == values[k]
  }

  /** All peers but those numbered i and i + 1. */
  function Others<T>(s: seq<T>, i: nat): seq<T>
    requires i + 1 < |s|
  {
    s[..i] + s[i + 2..]
  }

  ghost function NodesOf(peers: seq<PeerNode>): set<IpNode>
    reads peers`ips
  {
    set k, n | 0 <= k < |peers| && n in peers[k].ips :: n
  }

  /** The last pointer of a peer is good or, if tail is false, lost. */
  ghost predicate TailIs(peer: PeerNode, tail: bool)
    reads peer`last, peer`ips
  {
    if tail then peer.TailKnown() else Dangling(peer)
  }

  /** Peer i takes over the allowed IPs of peer i + 1; no other peer changes. */
  method AbsorbNext(dev: Device, peer: PeerNode, next: PeerNode, ghost i: nat, ghost values: seq<Peer>,
                    ghost tail: bool)
    returns (fault: bool)
    requires dev.Linked() && values == dev.Values() && i + 1 < |values|
    requires peer == dev.peers[i] && next == dev.peers[i + 1] && TailIs(peer, tail) && next.TailKnown()
    modifies peer`first, peer`last, peer`ips, peer.ips`next, next.ips`owner
    ensures fault <==> !tail
    ensures !fault ==> peer.Linked() && peer.ips == old(peer.ips + next.ips)
    ensures !fault ==> peer.Value() == Merge(values[i], values[i + 1])
    ensures !fault ==> TailIs(peer, values[i].ips == [] || values[i + 1].ips != [])
    ensures !fault ==> Kept(Others(dev.peers, i), Others(values, i), NodesOf(Others(dev.peers, i)))
  {
    ghost var others := Others(dev.peers, i);
    ghost var nodes := NodesOf(others);
    forall k | 0 <= k < |others|
      ensures others[k].Linked() && others[k].Value() == Others(values, i)[k] && others[k] != peer && others[k] != next
    {
      assert others[k] == dev.peers[if k < i then k else k + 2];
    }
    assert Kept(others, Others(values, i), nodes);
    assert nodes !! (set n | n in peer.ips) && nodes !! (set n | n in next.ips);
    assert values[i] == peer.Value() && values[i + 1] == next.Value();
    fault := AbsorbIps(peer, next);
  }

  /** The values once peer i has taken over peer i + 1. */
  function Merged(values: seq<Peer>, i: nat): (r: seq<Peer>)
    requires i + 1 < |values|
    ensures |r| == |values| - 1
  {
    values[..i] + [Merge(values[i], values[i + 1])] + values[i + 2..]
  }

  lemma LinkedByParts(dev: Device, peers: seq<PeerNode>, i: nat, values: seq<Peer>, nodes: set<IpNode>)
    requires i + 1 < |peers| == |values| && dev.peers == peers[..i + 1] + peers[i + 2..]
    requires dev.Owns() && dev.Chained() && peers[i].Linked() && peers[i].Value() == Merge(values[i], values[i + 1])
    requires Kept(Others(peers, i), Others(values, i), nodes)
    ensures dev.Linked() && dev.Values() == Merged(values, i)
  {
    forall k | 0 <= k < |dev.peers|
      ensures dev.peers[k].Linked() && dev.peers[k].Value() == Merged(values, i)[k]
    {
      if k != i {
        var j := if k < i then k else k - 1;
        assert dev.peers[k] == Others(peers, i)[j] && Merged(values, i)[k] == Others(values, i)[j];
      }
    }
  }

  /** Taking peer i + 1 out of the chain. */
  method Unlink(dev: Device, peer: PeerNode, next: PeerNode, ghost i: nat)
    requires dev.Owns() && dev.Chained() && i + 1 < |dev.peers| && peer == dev.peers[i] && next == dev.peers[i + 1]
    modifies dev`peers, peer`next
    ensures dev.peers == old(dev.peers)[..i + 1] + old(dev.peers)[i + 2..] && dev.Owns() && dev.Chained()
  {
    ghost var peers := dev.peers;
    assert next.next == if i + 2 < |peers| then peers[i + 2] else null;
    peer.next := next.next;
    dev.peers := peers[..i + 1] + peers[i + 2..];
    forall k | 0 <= k < |dev.peers|
      ensures dev.peers[k] == peers[if k <= i then k else k + 1]
      ensures dev.peers[k].next == if k + 1 < |dev.peers| then dev.peers[k + 1] else null
    {
    }
    assert Distinct(dev.peers);
  }

  ghost predicate Tails(peers: seq<PeerNode>)
    reads peers`last, peers`ips
  {
    forall k :: 0 <= k < |peers| ==> peers[k].TailKnown()
  }

  /** One merge: peer i absorbs peer i + 1, which leaves the list. */
  method MergeNext(dev: Device, peer: PeerNode, ghost i: nat, ghost values: seq<Peer>, ghost tail: bool)
    returns (fault: bool)
    requires dev.Linked() && values == dev.Values() && i + 1 < |values| && peer == dev.peers[i]
    requires TailIs(peer, tail) && Tails(dev.peers[i + 1..])
    modifies dev`peers, peer`first, peer`last, peer`ips, peer`next, peer.ips`next, dev.peers[i + 1].ips`owner
    ensures fault <==> !tail
    ensures !fault ==> dev.Linked() && dev.peers == old(dev.peers)[..i + 1] + old(dev.peers)[i + 2..]
    ensures !fault ==> dev.Values() == Merged(values, i) && Tails(dev.peers[i + 1..])
    ensures !fault ==> TailIs(peer, values[i].ips == [] || values[i + 1].ips != [])
  {
    hide Kept, Others, NodesOf, Merged;
    ghost var peers, later := dev.peers, dev.peers[i + 2..];
    assert Tails(later) && peers[i + 1..] == [peers[i + 1]] + later;
    var next := peer.next;
    fault := AbsorbNext(dev, peer, next, i, values, tail);
    if fault {
      return;
    }
    assert dev.Owns();
    DropNext(dev, peer, next, i, values, NodesOf(Others(peers, i)));
    assert dev.peers[i + 1..] == later;
  }

  /** Peer i + 1, whose allowed IPs have moved to peer i, leaves the list. */
  method DropNext(dev: Device, peer: PeerNode, next: PeerNode, ghost i: nat, ghost values: seq<Peer>,
                  ghost nodes: set<IpNode>)
    requires dev.Owns() && dev.Chained() && i + 1 < |dev.peers| == |values|
    requires peer == dev.peers[i] && next == dev.peers[i + 1]
    requires peer.Linked() && peer.Value() == Merge(values[i], values[i + 1])
    requires Kept(Others(dev.peers, i), Others(values, i), nodes)
    modifies dev`peers, peer`next
    ensures dev.Linked() && dev.peers == old(dev.peers)[..i + 1] + old(dev.peers)[i + 2..]
    ensures dev.Values() == Merged(values, i)
  {
    ghost var peers := dev.peers;
    Unlink(dev, peer, next, i);
    assert Kept(Others(peers, i), Others(values, i), nodes);
    LinkedByParts(dev, peers, i, values, nodes);
  }

  /** The loop is at peer i of the values v: what is before it is final, and what
      is left is safe if the whole was. */
  ghost predicate Progress(start: seq<Peer>, v: seq<Peer>, i: nat, tail: bool) {
    i <= |v| && Coalesce(start) == v[..i] + Coalesce(v[i..]) && (Safe(start, true) <==> Safe(v[i..], tail))
  }

  lemma Advance(start: seq<Peer>, v: seq<Peer>, i: nat, tail: bool)
    requires Progress(start, v, i, tail) && i + 1 < |v| && v[i].info.publicKey != v[i + 1].info.publicKey
    ensures Progress(start, v, i + 1, true)
  {
    var rest := v[i..];
    assert v[..i + 1] == v[..i] + [v[i]] && rest[0] == v[i] && rest[1] == v[i + 1] && rest[1..] == v[i + 1..];
  }

  lemma {:induction false} MergeAt(start: seq<Peer>, v: seq<Peer>, i: nat, tail: bool)
    requires Progress(start, v, i, tail) && i + 1 < |v| && v[i].info.publicKey == v[i + 1].info.publicKey
    ensures v[i].ips != [] && !tail ==> !Safe(start, true)
    ensures v[i].ips == [] || tail ==> Progress(start, Merged(v, i), i, v[i].ips == [] || v[i + 1].ips != [])
  {
    var rest, m := v[i..], Merged(v, i);
    assert rest[0] == v[i] && rest[1] == v[i + 1] && rest[2..] == v[i + 2..];
    assert m[..i] == v[..i] && m[i..] == [Merge(v[i], v[i + 1])] + v[i + 2..];
  }

  /** Where the loop stands: before peer i, everything from there on still untouched. */
  ghost predicate At(dev: Device, start: seq<Peer>, peer: PeerNode?, i: nat, tail: bool)
    reads dev, dev.Repr
  {
    dev.Linked() && Progress(start, dev.Values(), i, tail)
    && peer == (if i < |dev.peers| then dev.peers[i] else null)
    && (i < |dev.peers| ==> Tails(dev.peers[i + 1..]) && TailIs(dev.peers[i], tail))
  }

  /** One turn of the loop. */
  method Turn(dev: Device, peer0: PeerNode, ghost start: seq<Peer>, ghost i0: nat, ghost tail0: bool)
    returns (fault: bool, peer: PeerNode?, ghost i: nat, ghost tail: bool)
    requires At(dev, start, peer0, i0, tail0) && peer0.next != null
    modifies dev.Repr
    ensures fault ==> !Safe(start, true)
    ensures !fault ==> At(dev, start, peer, i, tail) && dev.Repr == old(dev.Repr) && dev.info == old(dev.info)
    ensures !fault ==> |dev.peers| - i < |old(dev.peers)| - i0
  {
    hide Progress, Merged;
    ghost var values := dev.Values();
    assert peer0.Value() == values[i0] && peer0.next.Value() == values[i0 + 1];
    if peer0.info.publicKey != peer0.next.info.publicKey {
      Advance(start, values, i0, tail0);
      assert dev.peers[i0 + 1..][0] == peer0.next && dev.peers[i0 + 1..][1..] == dev.peers[i0 + 2..];
      fault, peer := false, peer0.next;
      i, tail := i0 + 1, true;
    } else {
      MergeAt(start, values, i0, tail0);
      fault := MergeNext(dev, peer0, i0, values, tail0);
      peer, i, tail := peer0, i0, values[i0].ips == [] || values[i0 + 1].ips != [];
    }
  }

  /** coalesce_peers follows a null pointer exactly when some run of equal keys has
      allowed IPs, then an empty fragment, and then one more; otherwise it merges all
      runs. Afterwards last_peer may point to a freed peer, and last_allowedip of a
      peer that absorbed an empty fragment may be null. */
  method CoalesceDevice(dev: Device) returns (fault: bool)
    requires dev.Linked() && dev.TailKnown()
    modifies dev.Repr
    ensures fault <==> !NeverStale(old(dev.Values()))
    ensures !fault ==> dev.Linked() && dev.Values() == Coalesce(old(dev.Values())) && dev.info == old(dev.info)
  {
    ghost var start, tail := dev.Values(), true;
    ghost var i: nat := 0;
    var peer := dev.first;
    assert start[0..] == start;
    SafeExactly(start, true);
    while peer != null && peer.next != null
      invariant At(dev, start, peer, i, tail) && dev.Repr == old(dev.Repr) && dev.info == old(dev.info)
      decreases |dev.peers| - i
    {
      fault, peer, i, tail := Turn(dev, peer, start, i, tail);
      if fault {
        return;
      }
    }
    ghost var values := dev.Values();
    assert |values[i..]| <= 1 && values[..i] + values[i..] == values;
    fault := false;
  }

  /** Allowed IPs, an empty fragment and one more under one key. */
  lemma FaultyRun(p: PeerInfo, a: seq<AllowedIp>, b: seq<AllowedIp>)
    requires a != []
    ensures !NeverStale([Peer(p, a), Peer(p, []), Peer(p, b)])
  {
    assert Stale([Peer(p, a), Peer(p, []), Peer(p, b)], 0, 1);
  }

  //
  // Exactly when the stale pointer is used
  //

  predicate SameRun(ps: seq<Peer>, from: nat, to: nat) {
    from <= to < |ps| && forall i :: from <= i <= to ==> ps[i].info.publicKey == ps[from].info.publicKey
  }

  /** In one run of equal keys: allowed IPs, later an empty fragment, and something behind it. */
  predicate Stale(ps: seq<Peer>, j: nat, k: nat) {
    j < k && k + 1 < |ps| && ps[j].ips != [] && ps[k].ips == [] && SameRun(ps, j, k + 1)
  }

  lemma StaleAfterMerge(ps: seq<Peer>, m: seq<Peer>, j: nat, k: nat)
    requires |ps| >= 2 && ps[0].info.publicKey == ps[1].info.publicKey && m == [Merge(ps[0], ps[1])] + ps[2..]
    requires Stale(ps, j, k) && k >= 2
    ensures Stale(m, if j == 0 then 0 else j - 1, k - 1)
  {
    var j' := if j == 0 then 0 else j - 1;
    assert m[k - 1] == ps[k] && m[0].info.publicKey == ps[0].info.publicKey;
    forall i | j' <= i <= k
      ensures m[i].info.publicKey == m[j'].info.publicKey
    {
      assert ps[i + 1].info.publicKey == ps[j].info.publicKey;
      assert i > 0 ==> m[i] == ps[i + 1];
      assert j' > 0 ==> m[j'] == ps[j];
    }
  }

  lemma StaleBeforeMerge(ps: seq<Peer>, m: seq<Peer>, j: nat, k: nat)
    requires |ps| >= 2 && ps[0].info.publicKey == ps[1].info.publicKey && m == [Merge(ps[0], ps[1])] + ps[2..]
    requires Stale(m, j, k)
    ensures Stale(ps, if j == 0 && ps[0].ips != [] then 0 else j + 1, k + 1)
  {
    var j' := if j == 0 && ps[0].ips != [] then 0 else j + 1;
    assert m[k] == ps[k + 1];
    forall i | j' <= i <= k + 2
      ensures ps[i].info.publicKey == ps[j'].info.publicKey
    {
      assert i > 1 ==> ps[i] == m[i - 1] && m[i - 1].info.publicKey == m[j].info.publicKey;
      assert j' > 1 ==> ps[j'] == m[j];
    }
  }

  lemma StaleTail(ps: seq<Peer>, j: nat, k: nat)
    requires |ps| >= 2
    ensures Stale(ps[1..], j, k) <==> Stale(ps, j + 1, k + 1)
  {
    var t := ps[1..];
    assert forall i :: 0 <= i < |t| ==> t[i] == ps[i + 1];
    assert Stale(t, j, k) ==> forall i :: j + 1 <= i <= k + 2 ==> ps[i] == t[i - 1];
  }

  ghost predicate NeverStale(ps: seq<Peer>) {
    forall j: nat, k: nat :: !Stale(ps, j, k)
  }

  /** coalesce_peers never goes through a null pointer exactly when no run of equal
      keys has allowed IPs, then an empty fragment, and then one more. */
  lemma {:induction false} SafeExactly(ps: seq<Peer>, tail: bool)
    ensures Safe(ps, tail)
       <==> NeverStale(ps) && (tail || |ps| <= 1 || ps[0].ips == [] || ps[0].info.publicKey != ps[1].info.publicKey)
    decreases |ps|
  {
    if |ps| > 1 {
      if ps[0].info.publicKey == ps[1].info.publicKey {
        var m := [Merge(ps[0], ps[1])] + ps[2..];
        SafeExactly(m, ps[0].ips == [] || ps[1].ips != []);
        NeverStaleMerge(ps, m);
      } else {
        SafeExactly(ps[1..], true);
        NeverStaleTail(ps);
      }
    }
  }

  lemma NeverStaleTail(ps: seq<Peer>)
    requires |ps| >= 2 && ps[0].info.publicKey != ps[1].info.publicKey
    ensures NeverStale(ps) <==> NeverStale(ps[1..])
  {
    if j: nat, k: nat :| Stale(ps, j, k) {
      StaleTail(ps, j - 1, k - 1);
    }
    if j: nat, k: nat :| Stale(ps[1..], j, k) {
      StaleTail(ps, j, k);
    }
  }

  lemma NeverStaleMerge(ps: seq<Peer>, m: seq<Peer>)
    requires |ps| >= 2 && ps[0].info.publicKey == ps[1].info.publicKey && m == [Merge(ps[0], ps[1])] + ps[2..]
    ensures NeverStale(ps) <==> NeverStale(m) && !Stale(ps, 0, 1)
  {
    if j: nat, k: nat :| Stale(ps, j, k) && k >= 2 {
      StaleAfterMerge(ps, m, j, k);
    }
    if j: nat, k: nat :| Stale(m, j, k) {
      StaleBeforeMerge(ps, m, j, k);
    }
  }
}
