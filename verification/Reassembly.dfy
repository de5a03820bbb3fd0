/** coalesce_peers undoes the fragmentation: merging what the reader makes of the
    fragments gives the sent peers back, and exactly when. */
module Reassembly {
  import opened Options
  import opened Words
  import opened Netlink
  import opened WgDevice
  import opened Packing
  import opened SetDevice
  import opened ReadDevice
  import opened CoalescePeers
  import opened RoundTrip

  function Last<T>(s: seq<T>): T
    requires s != []
  {
    s[|s| - 1]
  }

  //
  // Coalescing from the right
  //

  /** One more peer behind an already merged list. */
  function Extend(ps: seq<Peer>, p: Peer): (r: seq<Peer>)
    ensures r != []
  {
    if ps != [] && Last(ps).info.publicKey == p.info.publicKey then ps[..|ps| - 1] + [Merge(Last(ps), p)] else ps + [p]
  }

  lemma {:induction false} CoalesceNonempty(ps: seq<Peer>)
    requires ps != []
    ensures Coalesce(ps) != []
    decreases |ps|
  {
    if |ps| > 1 && ps[0].info.publicKey == ps[1].info.publicKey {
      CoalesceNonempty([Merge(ps[0], ps[1])] + ps[2..]);
    }
  }

  /** Merging from the left, as the loop does, or from the right is the same. */
  lemma {:induction false} CoalesceSnoc(ps: seq<Peer>, p: Peer)
    ensures Coalesce(ps + [p]) == Extend(Coalesce(ps), p)
    decreases |ps|
  {
    var all := ps + [p];
    if |ps| == 0 {
    } else if |ps| == 1 {
      assert all[2..] == [] && all[1..] == [p];
      if all[0].info.publicKey == all[1].info.publicKey {
        assert [Merge(ps[0], p)] + all[2..] == [Merge(ps[0], p)] == ps[..0] + [Merge(ps[0], p)];
      }
    } else if ps[0].info.publicKey == ps[1].info.publicKey {
      var merged := [Merge(ps[0], ps[1])] + ps[2..];
      assert [Merge(all[0], all[1])] + all[2..] == merged + [p];
      CoalesceSnoc(merged, p);
    } else {
      var rest := Coalesce(ps[1..]);
      assert all[1..] == ps[1..] + [p];
      CoalesceSnoc(ps[1..], p);
      CoalesceNonempty(ps[1..]);
      ExtendCons(ps[0], rest, p);
    }
  }

  lemma ExtendCons(first: Peer, rest: seq<Peer>, p: Peer)
    requires rest != []
    ensures Extend([first] + rest, p) == [first] + Extend(rest, p)
  {
    assert Last([first] + rest) == Last(rest);
    assert ([first] + rest)[..|rest|] == [first] + rest[..|rest| - 1];
  }

  predicate NeighboursDiffer(ps: seq<Peer>) {
    forall k :: 0 < k < |ps| ==> ps[k - 1].info.publicKey != ps[k].info.publicKey
  }

  /** After coalescing no two neighbours have the same key. */
  lemma {:induction false} CoalescedDiffer(ps: seq<Peer>)
    ensures NeighboursDiffer(Coalesce(ps))
  {
    if ps != [] {
      var n := |ps| - 1;
      assert ps == ps[..n] + [ps[n]];
      CoalescedDiffer(ps[..n]);
      CoalesceSnoc(ps[..n], ps[n]);
      hide Coalesce;
      ExtendDiffers(Coalesce(ps[..n]), ps[n]);
    }
  }

  lemma ExtendDiffers(ps: seq<Peer>, p: Peer)
    requires NeighboursDiffer(ps)
    ensures NeighboursDiffer(Extend(ps, p))
  {
  }

  function CountIps(ps: seq<Peer>): nat {
    if ps == [] then 0 else CountIps(ps[..|ps| - 1]) + |Last(ps).ips|
  }

  /** Coalescing loses no allowed IP and duplicates none. */
  lemma {:induction false} CoalesceCount(ps: seq<Peer>)
    ensures CountIps(Coalesce(ps)) == CountIps(ps)
  {
    if ps != [] {
      var n := |ps| - 1;
      assert ps == ps[..n] + [ps[n]];
      CoalesceCount(ps[..n]);
      CoalesceSnoc(ps[..n], ps[n]);
      ExtendCount(Coalesce(ps[..n]), ps[n]);
    }
  }

  lemma {:induction false} ExtendCount(ps: seq<Peer>, p: Peer)
    ensures CountIps(Extend(ps, p)) == CountIps(ps) + |p.ips|
  {
    var r := Extend(ps, p);
    if ps != [] && Last(ps).info.publicKey == p.info.publicKey {
      assert r[..|r| - 1] == ps[..|ps| - 1];
    } else {
      assert r[..|r| - 1] == ps;
    }
  }

  //
  // Legal addresses
  //

  /** All but possibly the last are legal. */
  predicate Read(ips: seq<AllowedIp>) {
    forall k :: 0 <= k < |ips| - 1 ==> ips[k].Legal()
  }

  /** The reader gets the whole list exactly when it meets no illegal one before the last. */
  lemma {:induction false} HeardWhole(ips: seq<AllowedIp>)
    requires AllSized(ips)
    ensures |Heard(ips)| <= |ips| && (|Heard(ips)| == |ips| <==> Read(ips))
    ensures Read(ips) ==> Heard(ips) == SentIps(ips)
    ensures Heard(ips) == [] <==> ips == []
  {
    if ips != [] {
      var tail := ips[1..];
      HeardWhole(tail);
      assert forall k :: 0 <= k < |tail| ==> tail[k] == ips[k + 1];
      assert SentIps(ips) == [SentIp(ips[0])] + SentIps(tail);
      if ips[0].Legal() {
        assert Read(ips) <==> Read(tail) by {
          assert Read(tail) ==> forall k :: 1 <= k < |ips| - 1 ==> ips[k] == tail[k - 1];
        }
      } else {
        assert |ips| > 1 ==> !Read(ips);
      }
    }
  }

  predicate AllRead(fs: seq<Frag>) {
    forall k :: 0 <= k < |fs| ==> Read(fs[k].ips)
  }

  //
  // Reassembling
  //

  function SentPeers(ps: seq<Peer>): (r: seq<Peer>)
    requires SizedPeers(ps)
    ensures |r| == |ps|
  {
    seq(|ps|, k requires 0 <= k < |ps| => SentPeer(ps[k]))
  }

  /** A fragment list without its last element. */
  lemma FragsSnoc(fs: seq<Frag>)
    requires SizedFrags(fs) && Resumes(fs) && fs != []
    ensures var init := fs[..|fs| - 1];
      SizedFrags(init) && Resumes(init) && HeardFrags(fs) == HeardFrags(init) + [HeardFrag(Last(fs))]
  {
    var n := |fs| - 1;
    var init := fs[..n];
    assert forall k :: 0 <= k < n ==> init[k] == fs[k];
    assert HeardFrags(fs) == HeardFrags(init) + [HeardFrag(fs[n])];
  }

  /** The last peer joined so far is the one the last fragment belongs to. */
  lemma {:induction false} JoinLast(fs: seq<Frag>)
    requires SizedFrags(fs) && Resumes(fs) && fs != []
    ensures Join(fs) != [] && Last(Join(fs)).info == Last(fs).info
  {
    if !Last(fs).first {
      FragsSnoc(fs);
      JoinLast(fs[..|fs| - 1]);
    }
  }

  lemma {:induction false} JoinSized(fs: seq<Frag>)
    requires SizedFrags(fs) && Resumes(fs)
    ensures SizedPeers(Join(fs))
  {
    if fs != [] {
      FragsSnoc(fs);
      JoinSized(fs[..|fs| - 1]);
    }
  }

  lemma {:induction false} JoinCount(fs: seq<Frag>)
    requires SizedFrags(fs) && Resumes(fs)
    ensures CountIps(HeardFrags(fs)) <= CountIps(Join(fs))
    ensures CountIps(HeardFrags(fs)) == CountIps(Join(fs)) ==> AllRead(fs)
  {
    if fs != [] {
      var init, f := fs[..|fs| - 1], Last(fs);
      FragsSnoc(fs);
      JoinCount(init);
      HeardWhole(f.ips);
      CountSnoc(HeardFrags(init), HeardFrag(f));
      JoinStepCount(fs);
      AllReadSnoc(fs);
    } else {
      assert HeardFrags(fs) == [];
    }
  }

  lemma {:induction false} CountSnoc(ps: seq<Peer>, p: Peer)
    ensures CountIps(ps + [p]) == CountIps(ps) + |p.ips|
  {
    assert (ps + [p])[..|ps|] == ps;
  }

  lemma AllReadSnoc(fs: seq<Frag>)
    requires fs != []
    ensures AllRead(fs) <==> AllRead(fs[..|fs| - 1]) && Read(Last(fs).ips)
  {
    var init := fs[..|fs| - 1];
    assert forall k :: 0 <= k < |init| ==> init[k] == fs[k];
  }

  lemma {:induction false} JoinStepCount(fs: seq<Frag>)
    requires SizedFrags(fs) && Resumes(fs) && fs != []
    ensures CountIps(Join(fs)) == CountIps(Join(fs[..|fs| - 1])) + |Last(fs).ips|
  {
    var before, after := Join(fs[..|fs| - 1]), Join(fs);
    if Last(fs).first {
      assert after[..|before|] == before;
    } else {
      FragsSnoc(fs);
      JoinLast(fs[..|fs| - 1]);
      assert after[..|after| - 1] == before[..|before| - 1];
    }
  }

  lemma ExtendSent(before: seq<Peer>, f: Frag, after: seq<Peer>)
    requires SizedPeers(before) && SizedFrag(f) && Read(f.ips) && SizedPeers(after)
    requires f.first ==> after == before + [Peer(f.info, f.ips)]
    requires f.first && before != [] ==> Last(before).info.publicKey != f.info.publicKey
    requires !f.first ==> before != [] && Last(before).info == f.info
    requires !f.first ==> after == before[..|before| - 1] + [Peer(f.info, Last(before).ips + f.ips)]
    ensures Extend(SentPeers(before), HeardFrag(f)) == SentPeers(after)
  {
    HeardWhole(f.ips);
    var sent, heard := SentPeers(before), HeardFrag(f);
    if f.first {
      assert SentPeers(after) == sent + [SentPeer(Peer(f.info, f.ips))];
    } else {
      var ips := Last(before).ips;
      assert SentIps(ips + f.ips) == SentIps(ips) + SentIps(f.ips);
      assert Merge(Last(sent), heard) == SentPeer(Peer(f.info, ips + f.ips));
      assert SentPeers(after) == sent[..|sent| - 1] + [Merge(Last(sent), heard)];
    }
  }

  /** What joining one more fragment keeps. */
  lemma {:induction false} JoinDiffers(fs: seq<Frag>)
    requires SizedFrags(fs) && Resumes(fs) && fs != [] && NeighboursDiffer(Join(fs))
    ensures var before := Join(fs[..|fs| - 1]);
      NeighboursDiffer(before)
      && (Last(fs).first && before != [] ==> Last(before).info.publicKey != Last(fs).info.publicKey)
  {
    hide Join;
    JoinShape(fs);
  }

  /** One more fragment adds a peer or extends the last one. */
  lemma JoinShape(fs: seq<Frag>)
    requires fs != []
    ensures var before, after := Join(fs[..|fs| - 1]), Join(fs);
      (forall k :: 0 <= k < |before| ==> k < |after| && before[k].info == after[k].info)
      && (Last(fs).first ==> |after| == |before| + 1 && Last(after).info == Last(fs).info)
  {
  }

  lemma {:induction false} Reassembled(fs: seq<Frag>)
    requires SizedFrags(fs) && Resumes(fs) && NeighboursDiffer(Join(fs)) && AllRead(fs)
    ensures SizedPeers(Join(fs)) && Coalesce(HeardFrags(fs)) == SentPeers(Join(fs))
  {
    JoinSized(fs);
    if fs == [] {
      assert SentPeers(Join(fs)) == HeardFrags(fs) == [];
    } else {
      var init, f := fs[..|fs| - 1], Last(fs);
      FragsSnoc(fs);
      AllReadSnoc(fs);
      JoinDiffers(fs);
      JoinAdds(fs);
      hide Join, Resumes, SizedFrag, HeardFrag, HeardFrags, Coalesce, Extend, AllRead, NeighboursDiffer, SentPeers;
      Reassembled(init);
      CoalesceSnoc(HeardFrags(init), HeardFrag(f));
      ExtendSent(Join(init), f, Join(fs));
    }
  }

  /** What one more fragment does to the peers joined before it. */
  lemma {:induction false} JoinAdds(fs: seq<Frag>)
    requires SizedFrags(fs) && Resumes(fs) && fs != []
    ensures var before, f, after := Join(fs[..|fs| - 1]), Last(fs), Join(fs);
      SizedFrag(f) && SizedPeers(before)
      && (f.first ==> after == before + [Peer(f.info, f.ips)])
      && (!f.first ==> before != [] && Last(before).info == f.info)
      && (!f.first ==> after == before[..|before| - 1] + [Peer(f.info, Last(before).ips + f.ips)])
  {
    var init := fs[..|fs| - 1];
    FragsSnoc(fs);
    JoinSized(init);
    if !Last(fs).first {
      JoinLast(init);
    }
  }

  lemma {:induction false} SentCount(ps: seq<Peer>)
    requires SizedPeers(ps)
    ensures CountIps(SentPeers(ps)) == CountIps(ps)
  {
    if ps != [] {
      var init := ps[..|ps| - 1];
      SentCount(init);
      assert SentPeers(ps)[..|ps| - 1] == SentPeers(init);
    }
  }

  /** Fragments come back as the peers sent exactly when no two neighbouring
      peers have the same key and no fragment has an illegal allowed IP before its last. */
  lemma {:induction false} ReassembledExactly(fs: seq<Frag>)
    requires SizedFrags(fs) && Resumes(fs)
    ensures SizedPeers(Join(fs))
    ensures Coalesce(HeardFrags(fs)) == SentPeers(Join(fs)) <==> NeighboursDiffer(Join(fs)) && AllRead(fs)
  {
    JoinSized(fs);
    var ps := Join(fs);
    if NeighboursDiffer(ps) && AllRead(fs) {
      Reassembled(fs);
    }
    hide Join, Resumes, SizedFrag, HeardFrag, HeardFrags, Coalesce, AllRead;
    if Coalesce(HeardFrags(fs)) == SentPeers(ps) {
      CoalescedDiffer(HeardFrags(fs));
      SentDiffer(ps);
      hide SentPeers, NeighboursDiffer;
      CoalesceCount(HeardFrags(fs));
      SentCount(ps);
      JoinCount(fs);
    }
  }

  lemma SentDiffer(ps: seq<Peer>)
    requires SizedPeers(ps) && NeighboursDiffer(SentPeers(ps))
    ensures NeighboursDiffer(ps)
  {
    assert forall k :: 0 <= k < |ps| ==> SentPeers(ps)[k].info.publicKey == ps[k].info.publicKey;
  }

  //
  // The pointers that coalesce_peers leaves behind
  //

  /** Where a key repeats, the repetition brings allowed IPs. */
  predicate RepeatsAdd(ps: seq<Peer>) {
    forall k :: 0 < k < |ps| && ps[k - 1].info.publicKey == ps[k].info.publicKey ==> ps[k].ips != []
  }

  lemma {:induction false} RepeatsSafe(ps: seq<Peer>)
    requires RepeatsAdd(ps)
    ensures Safe(ps, true)
    decreases |ps|
  {
    if |ps| > 1 {
      if ps[0].info.publicKey == ps[1].info.publicKey {
        var merged := [Merge(ps[0], ps[1])] + ps[2..];
        assert ps[1].ips != [];
        assert forall k :: 1 <= k < |merged| ==> merged[k] == ps[k + 1];
        RepeatsSafe(merged);
      } else {
        assert forall k :: 0 <= k < |ps| - 1 ==> ps[1..][k] == ps[k + 1];
        RepeatsSafe(ps[1..]);
      }
    }
  }

  lemma {:induction false} FragsRepeatAdd(fs: seq<Frag>)
    requires SizedFrags(fs) && Resumes(fs) && NeighboursDiffer(Join(fs))
    ensures RepeatsAdd(HeardFrags(fs))
  {
    if |fs| > 1 {
      var init, n := fs[..|fs| - 1], |fs| - 1;
      FragsSnoc(fs);
      JoinDiffers(fs);
      LastRepeatAdds(fs);
      hide Join, Resumes, SizedFrag, HeardFrag, HeardFrags, NeighboursDiffer;
      FragsRepeatAdd(init);
      RepeatsAddSnoc(HeardFrags(init), HeardFrag(fs[n]));
    }
  }

  lemma RepeatsAddSnoc(ps: seq<Peer>, p: Peer)
    requires RepeatsAdd(ps) && (ps != [] && Last(ps).info.publicKey == p.info.publicKey ==> p.ips != [])
    ensures RepeatsAdd(ps + [p])
  {
    var all := ps + [p];
    assert forall k :: 0 <= k < |ps| ==> all[k] == ps[k];
  }

  lemma {:induction false} LastRepeatAdds(fs: seq<Frag>)
    requires SizedFrags(fs) && Resumes(fs) && |fs| > 1 && NeighboursDiffer(Join(fs))
    ensures var init, f := fs[..|fs| - 1], Last(fs);
      SizedFrags(init) && |HeardFrags(init)| > 0
      && (Last(HeardFrags(init)).info.publicKey == HeardFrag(f).info.publicKey ==> HeardFrag(f).ips != [])
  {
    var init, f := fs[..|fs| - 1], Last(fs);
    FragsSnoc(fs);
    JoinDiffers(fs);
    JoinLast(init);
    HeardWhole(f.ips);
    hide Join, NeighboursDiffer, Heard;
    assert Last(HeardFrags(init)) == HeardFrag(Last(init));
  }

  //
  // The whole trip, on the linked lists
  //

  lemma {:induction false} NoFrags(frags: seq<seq<Frag>>, i: nat)
    requires i < |frags| && Flatten(frags) == []
    ensures frags[i] == []
  {
    var init := frags[..|frags| - 1];
    if i < |init| {
      NoFrags(init, i);
    }
  }

  /** Without peers there are no fragments. */
  lemma {:induction false} NothingJoined(fs: seq<Frag>)
    requires SizedFrags(fs) && Resumes(fs) && Join(fs) == []
    ensures fs == []
  {
    if fs != [] {
      JoinLast(fs);
    }
  }

  /** All that is sent, read back. */
  lemma {:induction false} SentRead(messages: seq<seq<Byte>>, buflen: nat, info: DeviceInfo, ps: seq<Peer>,
                                    frags: seq<seq<Frag>>)
    requires buflen < 0x1_0000 && |messages| > 0 && AllCarry(messages, buflen, info, ps != [], frags)
    requires Join(Flatten(frags)) == ps && Resumes(Flatten(frags))
    ensures SizedFrags(Flatten(frags))
    ensures ReadMessages(Payloads(messages), DeviceValue(ZERO_DEVICE, []))
         == (DeviceValue(SentDevice(info), HeardFrags(Flatten(frags))), true)
  {
    AllFlattened(messages, buflen, info, ps != [], frags, |frags|);
    assert frags[..|frags|] == frags && Payloads(messages)[..|frags|] == Payloads(messages);
    if ps == [] {
      NothingJoined(Flatten(frags));
      forall i | 0 <= i < |frags|
        ensures frags[i] == []
      {
        NoFrags(frags, i);
      }
    }
    MessagesBack(messages, buflen, info, ps != [], frags, |frags|);
  }

  lemma {:induction false} AllFlattened(messages: seq<seq<Byte>>, buflen: nat, info: DeviceInfo, anyPeers: bool,
                                        frags: seq<seq<Frag>>, n: nat)
    requires AllCarry(messages, buflen, info, anyPeers, frags) && n <= |frags|
    ensures SizedFrags(Flatten(frags[..n]))
  {
    if n > 0 {
      AllFlattened(messages, buflen, info, anyPeers, frags, n - 1);
      assert Carries(messages[n - 1], buflen, info, n - 1 == 0, anyPeers, frags[n - 1]);
      FlattenSnoc(frags, n - 1);
    }
  }

  /** wg_set_device followed by the reading half of wg_get_device on the messages it sent.

      The device read back has its peers in linked lists of its own. They are the
      sent peers exactly when, of the fragments that these peers make in a buffer of
      this size, none has an illegal allowed IP before its last. */
  method SetThenGet(d: Device, buflen: nat, ghost ns: Nodes, ghost ps: seq<Peer>) returns (dev: Device)
    requires 228 <= buflen < 0x1_0000 && Mirrors(d, ns, ps) && NeighboursDiffer(ps)
    ensures fresh(dev) && dev.Linked() && dev.info == SentDevice(d.info)
    ensures dev.Values() == SentPeers(ps) <==> AllRead(Flatten(Fragments(d.info, ps, buflen)))
    ensures LegalPeers(ps) ==> dev.Values() == SentPeers(ps)
  {
    hide Join, Resumes, Flatten, Fragments, AllRead, Safe, Coalesce;
    var messages := SetDevice.SetDevice(d, buflen, ns, ps);
    ghost var frags := Fragments(d.info, ps, buflen);
    ghost var fs := Flatten(frags);
    SentRead(messages, buflen, d.info, ps, frags);
    FragsRepeatAdd(fs);
    RepeatsSafe(HeardFrags(fs));
    SafeExactly(HeardFrags(fs), true);
    ReassembledExactly(fs);
    if LegalPeers(ps) {
      LegalRead(fs);
    }
    var ok, fault;
    ok, fault, dev := GetDevice(Payloads(messages));
  }

  /** A peer whose first allowed IP is illegal and whose second goes out with it is
      not read back. */
  lemma IllegalFirstLost(info: DeviceInfo, p: Peer, buflen: nat)
    requires info.Sized() && SizedPeer(p) && |p.ips| == 2 && !p.ips[0].Legal() && 312 <= buflen
    ensures !AllRead(Flatten(Fragments(info, [p], buflen)))
  {
    hide EncodeAll, Encode, PeerFields, DeviceFields, IpFields;
    var len, first := FirstFrag(info, true), Pos(0, false, 0);
    DeviceFieldsSize(info, true);
    PeerFieldsSize(p.info, true);
    IpFieldsSize(p.ips[0]);
    IpFieldsSize(p.ips[1]);
    var f := Frag(p.info, true, true, p.ips);
    assert p.ips[0..2] == p.ips;
    TwoFit(p.ips, HeaderEnd(p.info, true, len) + 4, buflen);
    assert NextFrag(p, true, 0, len, buflen) == Some((f, 2));
    OneFrag(info, p, f, buflen);
    assert [f][0] == f && !f.ips[0].Legal();
  }

  lemma {:induction false} TwoFit(ips: seq<AllowedIp>, len: nat, buflen: nat)
    requires AllSized(ips) && |ips| == 2 && len + 80 <= buflen
    requires |Encode(IpAttr(ips[0]))| <= 40 && |Encode(IpAttr(ips[1]))| <= 40
    ensures IpsFit(ips, 0, len, buflen) == 2
  {
    hide IpAttr, Encode;
    var next := len + |Encode(IpAttr(ips[0]))|;
    IpsFitStep(ips, 0, len, buflen);
    IpsFitStep(ips, 1, next, buflen);
    IpsFitStep(ips, 2, next + |Encode(IpAttr(ips[1]))|, buflen);
  }

  lemma OneFrag(info: DeviceInfo, p: Peer, f: Frag, buflen: nat)
    requires info.Sized() && SizedPeer(p) && NextFrag(p, true, 0, FirstFrag(info, true), buflen) == Some((f, |p.ips|))
    ensures Flatten(Fragments(info, [p], buflen)) == [f]
  {
    hide NextFrag, FirstFrag, FragAttr, Encode;
    var len := FirstFrag(info, true);
    NothingLeft([p], Pos(1, false, 0), len + |Encode(FragAttr(f))|, buflen);
    assert Fill([p], Pos(0, false, 0), len, buflen) == ([f] + [], Pos(1, false, 0));
    hide Fill;
    FlattenOne([f]);
  }

  /** The reading half of wg_get_device: whether all callbacks accepted the messages,
      and if so whether coalescing followed a null pointer, and else the device. */
  method GetDevice(payloads: seq<seq<Byte>>) returns (ok: bool, fault: bool, dev: Device)
    ensures var (d, good) := ReadMessages(payloads, DeviceValue(ZERO_DEVICE, []));
      fresh(dev) && ok == good && (fault <==> good && !NeverStale(d.peers))
      && (ok && !fault ==> dev.Linked() && dev.info == d.info && dev.Values() == Coalesce(d.peers))
  {
    hide ReadMessages, Coalesce;
    dev := new Device(ZERO_DEVICE);
    assert dev.Values() == [];
    fault := false;
    ok := ParseMessages(dev, payloads);
    if ok {
      fault := CoalesceDevice(dev);
    }
  }

  predicate LegalPeers(ps: seq<Peer>) {
    forall k :: 0 <= k < |ps| ==> AllLegal(ps[k].ips)
  }

  /** Legal peers have legal fragments. */
  lemma {:induction false} LegalRead(fs: seq<Frag>)
    requires SizedFrags(fs) && Resumes(fs) && LegalPeers(Join(fs))
    ensures AllRead(fs)
  {
    if fs != [] {
      FragsSnoc(fs);
      LegalJoin(fs);
      hide Join, Resumes, SizedFrag;
      AllReadSnoc(fs);
      LegalRead(fs[..|fs| - 1]);
    }
  }

  lemma {:induction false} LegalJoin(fs: seq<Frag>)
    requires SizedFrags(fs) && Resumes(fs) && fs != [] && LegalPeers(Join(fs))
    ensures LegalPeers(Join(fs[..|fs| - 1])) && Read(Last(fs).ips)
  {
    var init, f, after := fs[..|fs| - 1], Last(fs), Join(fs);
    var before := Join(init);
    if f.first {
      assert after == before + [Peer(f.info, f.ips)] && Last(after).ips == f.ips;
      assert forall k :: 0 <= k < |before| ==> before[k] == after[k];
    } else {
      FragsSnoc(fs);
      JoinLast(init);
      var n := |before| - 1;
      assert after == before[n := Peer(before[n].info, before[n].ips + f.ips)];
      assert after[n].ips == before[n].ips + f.ips;
      LegalParts(before[n].ips, f.ips);
      assert forall k :: 0 <= k < n ==> before[k] == after[k];
    }
  }

  lemma LegalParts(a: seq<AllowedIp>, b: seq<AllowedIp>)
    requires AllLegal(a + b)
    ensures AllLegal(a) && AllLegal(b)
  {
    assert forall k :: 0 <= k < |a| ==> (a + b)[k] == a[k];
    assert forall k :: 0 <= k < |b| ==> (a + b)[|a| + k] == b[k];
  }
}
