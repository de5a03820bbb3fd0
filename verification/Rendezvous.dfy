/** The rendezvous server of contrib/nat-hole-punching: a table of the addresses
    from which keys were last heard, written round and round. */
module Rendezvous {
  import opened Bits
  import opened Options

  const MAX_ENTRIES: nat := 65536
  const WRAP: nat := 0x1_0000_0000  // of the unsigned counter next_entry

  /** A public key as a number; a slot never written holds the key 0, so that a
      search for this key finds the first such slot as long as there is one. */
  type Key = nat

  datatype Addr = Addr(ip: nat, port: nat)

  datatype Packet = Packet(mine: Key, theirs: Key, source: Addr)

  datatype Entry = Entry(key: Key, addr: Addr)

  const EMPTY: Entry := Entry(0, Addr(0, 0))

  //
  // What the server has to know, from the packets received
  //

  /** The keys that are still in the table after these were put into it in order. */
  function Live(ins: seq<Key>): seq<Key> {
    if |ins| <= MAX_ENTRIES then ins else ins[|ins| - MAX_ENTRIES..]
  }

  /** A search finds the key once these were put in. */
  predicate Found(ins: seq<Key>, k: Key) {
    k in Live(ins) || (k == 0 && |ins| < MAX_ENTRIES)
  }

  /** The keys put into the table, in order: each sender that was not found in it. */
  function Inserted(log: seq<Packet>): seq<Key> {
    if log == [] then []
    else
      var before, k := Inserted(log[..|log| - 1]), log[|log| - 1].mine;
      if Found(before, k) then before else before + [k]
  }

  /** The address in the first slot whose key was never written: where the zero key
      was last heard from since the slot before it was taken. */
  function Spare(log: seq<Packet>): Addr {
    if log == [] then Addr(0, 0)
    else
      var init, p := log[..|log| - 1], log[|log| - 1];
      if !Found(Inserted(init), p.mine) then Addr(0, 0)
      else if p.mine == 0 && |Inserted(init)| < MAX_ENTRIES then p.source
      else Spare(init)
  }

  /** Where a key was last heard from. */
  function LastSource(log: seq<Packet>, k: Key): Option<Addr> {
    if log == [] then None
    else if log[|log| - 1].mine == k then Some(log[|log| - 1].source)
    else LastSource(log[..|log| - 1], k)
  }

  /** The address that a search for the key finds. */
  function Known(log: seq<Packet>, k: Key): Option<Addr> {
    if k == 0 && |Inserted(log)| < MAX_ENTRIES then Some(Spare(log))
    else if k in Live(Inserted(log)) then LastSource(log, k)
    else None
  }

  predicate Distinct(s: seq<Key>) {
    forall i, j :: 0 <= i < j < |s| ==> s[i] != s[j]
  }

  lemma LiveMember(ins: seq<Key>, k: Key)
    ensures k in Live(ins) <==> exists t :: |ins| - MAX_ENTRIES <= t < |ins| && 0 <= t && ins[t] == k
  {
    var d := if |ins| <= MAX_ENTRIES then 0 else |ins| - MAX_ENTRIES;
    assert forall i :: 0 <= i < |Live(ins)| ==> Live(ins)[i] == ins[d + i];
    if k in Live(ins) {
      var i :| 0 <= i < |Live(ins)| && Live(ins)[i] == k;
      assert ins[d + i] == k;
    }
    if t :| |ins| - MAX_ENTRIES <= t < |ins| && 0 <= t && ins[t] == k {
      assert Live(ins)[t - d] == k;
    }
  }

  /** No key is twice in the table. */
  lemma {:induction false} LiveDistinct(log: seq<Packet>)
    ensures Distinct(Live(Inserted(log)))
  {
    if log != [] {
      var before := Inserted(log[..|log| - 1]);
      LiveDistinct(log[..|log| - 1]);
      var k := log[|log| - 1].mine;
      if !Found(before, k) {
        LiveSnoc(before, k);
      }
    }
  }

  lemma LiveSnoc(ins: seq<Key>, k: Key)
    requires Distinct(Live(ins)) && k !in Live(ins)
    ensures Distinct(Live(ins + [k]))
  {
    var a, b := Live(ins), Live(ins + [k]);
    assert b == (if |ins| < MAX_ENTRIES then a else a[1..]) + [k];
  }

  /** The keys put in later come behind those put in before. */
  lemma {:induction false} InsertedMore(log: seq<Packet>, more: seq<Packet>)
    ensures Inserted(log) <= Inserted(log + more)
  {
    if more == [] {
      assert log + more == log;
    } else {
      var init := more[..|more| - 1];
      assert (log + more)[..|log + more| - 1] == log + init;
      InsertedMore(log, init);
    }
  }

  /** A key leaves the table only when 65536 other keys, all different, have been
      put into it since. */
  lemma {:induction false} LostOnlyByEviction(log: seq<Packet>, more: seq<Packet>, k: Key)
    requires k in Live(Inserted(log)) && k !in Live(Inserted(log + more))
    ensures var ins, live := Inserted(log + more), Live(Inserted(log + more));
      |live| == MAX_ENTRIES && Distinct(live) && k !in live && Inserted(log) <= ins
      && exists t :: 0 <= t < |Inserted(log)| && Inserted(log)[t] == k && t + MAX_ENTRIES < |ins|
  {
    var old_, ins := Inserted(log), Inserted(log + more);
    InsertedMore(log, more);
    LiveDistinct(log + more);
    LiveMember(old_, k);
    LiveMember(ins, k);
    var t :| |old_| - MAX_ENTRIES <= t < |old_| && 0 <= t && old_[t] == k;
    assert ins[t] == k && t + MAX_ENTRIES < |ins|;
  }

  /** A sender is in the table right after its packet, with the address it came from. */
  lemma HeardIsKnown(log: seq<Packet>, p: Packet)
    ensures Known(log + [p], p.mine) == Some(p.source)
  {
    var all := log + [p];
    assert all[..|log|] == log;
    LiveMember(Inserted(all), p.mine);
    if !Found(Inserted(log), p.mine) {
      var ins := Inserted(log);
      assert Inserted(all) == ins + [p.mine] && (ins + [p.mine])[|ins|] == p.mine;
    }
  }

  /** k sent a packet from this address. */
  predicate Sent(log: seq<Packet>, k: Key, a: Addr) {
    exists m :: 0 <= m < |log| && log[m].mine == k && log[m].source == a
  }

  /** What is known of a key is an address it sent from. */
  lemma {:induction false} KnownWasSent(log: seq<Packet>, k: Key)
    ensures LastSource(log, k).Some? ==> Sent(log, k, LastSource(log, k).value)
    ensures LastSource(log, k).None? <==> forall i :: 0 <= i < |log| ==> log[i].mine != k
  {
    if log != [] && log[|log| - 1].mine != k {
      var init := log[..|log| - 1];
      KnownWasSent(init, k);
      assert forall i :: 0 <= i < |init| ==> init[i] == log[i];
    }
  }

  /** While nothing was evicted, the table holds every key that has sent. */
  lemma {:induction false} SendersKnown(log: seq<Packet>, k: Key)
    requires |Inserted(log)| <= MAX_ENTRIES && k != 0
    ensures k in Live(Inserted(log)) <==> LastSource(log, k).Some?
  {
    if log != [] {
      var init, p := log[..|log| - 1], log[|log| - 1];
      assert init + [p] == log;
      InsertedMore(init, [p]);
      LogGrows(init, p);
      hide Inserted, LastSource;
      SendersKnown(init, k);
      assert |Inserted(init)| <= |Inserted(log)|;
      assert forall j :: j in Inserted(init) + [p.mine] <==> j in Inserted(init) || j == p.mine;
    }
  }

  /** The zero key is put in only when no slot is unwritten. */
  lemma {:induction false} ZeroLate(log: seq<Packet>, t: nat)
    requires t < |Inserted(log)| && t < MAX_ENTRIES
    ensures Inserted(log)[t] != 0
  {
    var init := log[..|log| - 1];
    if t < |Inserted(init)| {
      ZeroLate(init, t);
    }
  }

  //
  // The server
  //

  /** Slots are used in turn, also when the counter wraps. */
  lemma SlotOf(n: nat)
    ensures n % WRAP % MAX_ENTRIES == n % MAX_ENTRIES
    ensures (n + 1) % WRAP == (n % WRAP + 1) % WRAP
  {
    var q, r := n / WRAP, n % WRAP;
    DivModUnique(n, MAX_ENTRIES, q * 65536 + r / MAX_ENTRIES, r % MAX_ENTRIES);
    if r + 1 == WRAP {
      DivModUnique(n + 1, WRAP, q + 1, 0);
      DivModUnique(r + 1, WRAP, 1, 0);
    } else {
      DivModUnique(n + 1, WRAP, q, r + 1);
      DivModUnique(r + 1, WRAP, 0, r + 1);
    }
  }

  lemma SlotsDiffer(m: nat, n: nat)
    requires m < n < m + MAX_ENTRIES
    ensures m % MAX_ENTRIES != n % MAX_ENTRIES
  {
    var d := n / MAX_ENTRIES - m / MAX_ENTRIES;
    assert n - m == MAX_ENTRIES * d + (n % MAX_ENTRIES - m % MAX_ENTRIES);
  }

  lemma SlotReused(n: nat)
    requires n >= MAX_ENTRIES
    ensures (n - MAX_ENTRIES) % MAX_ENTRIES == n % MAX_ENTRIES
  {
    DivModUnique(n - MAX_ENTRIES, MAX_ENTRIES, n / MAX_ENTRIES - 1, n % MAX_ENTRIES);
  }

  lemma {:induction false} LogGrows(log: seq<Packet>, p: Packet)
    ensures Inserted(log + [p]) == if Found(Inserted(log), p.mine) then Inserted(log) else Inserted(log) + [p.mine]
    ensures Spare(log + [p])
         == if !Found(Inserted(log), p.mine) then Addr(0, 0)
            else if p.mine == 0 && |Inserted(log)| < MAX_ENTRIES then p.source else Spare(log)
    ensures forall k :: LastSource(log + [p], k) == if k == p.mine then Some(p.source) else LastSource(log, k)
  {
    assert (log + [p])[..|log|] == log;
  }

  /** Slot j holds the key that was put in as number holder[j], with the address it
      was last heard from, or its key was never written. */
  ghost predicate SlotGood(slots: seq<Entry>, holder: seq<nat>, log: seq<Packet>, j: nat)
    requires j < |slots| == |holder|
  {
    var ins := Inserted(log);
    if j < |ins| then
      |ins| - MAX_ENTRIES <= holder[j] < |ins| && holder[j] % MAX_ENTRIES == j
      && slots[j].key == ins[holder[j]] && Some(slots[j].addr) == LastSource(log, slots[j].key)
    else slots[j] == Entry(0, if j == |ins| then Spare(log) else Addr(0, 0))
  }

  /** Every slot is good, and every key still in the table is in its slot. */
  ghost predicate Table(slots: seq<Entry>, holder: seq<nat>, log: seq<Packet>) {
    |slots| == |holder| == MAX_ENTRIES
    && (forall j :: 0 <= j < MAX_ENTRIES ==> SlotGood(slots, holder, log, j))
    && forall t :: 0 <= t < |Inserted(log)| && |Inserted(log)| - MAX_ENTRIES <= t ==> holder[t % MAX_ENTRIES] == t
  }

  /** A written slot: its key is in the table, at the address known for it. */
  lemma {:induction false} InTable(slots: seq<Entry>, holder: seq<nat>, log: seq<Packet>, j: nat)
    requires Table(slots, holder, log) && j < MAX_ENTRIES && j < |Inserted(log)|
    ensures slots[j].key in Live(Inserted(log)) && Known(log, slots[j].key) == Some(slots[j].addr)
  {
    hide Inserted, LastSource, Spare;
    var ins := Inserted(log);
    assert SlotGood(slots, holder, log, j);
    LiveMember(ins, slots[j].key);
    assert ins[holder[j]] == slots[j].key;
    if |ins| < MAX_ENTRIES {
      ZeroLate(log, holder[j]);
    }
  }

  /** Unwritten slots hold the zero key. */
  lemma {:induction false} NotWritten(slots: seq<Entry>, holder: seq<nat>, log: seq<Packet>, j: nat)
    requires Table(slots, holder, log) && |Inserted(log)| <= j < MAX_ENTRIES
    ensures slots[j].key == 0 && (j == |Inserted(log)| ==> Known(log, 0) == Some(slots[j].addr))
  {
    assert SlotGood(slots, holder, log, j);
  }

  lemma {:induction false} NotInTable(slots: seq<Entry>, holder: seq<nat>, log: seq<Packet>, key: Key)
    requires Table(slots, holder, log) && forall m :: 0 <= m < MAX_ENTRIES ==> slots[m].key != key
    ensures !Found(Inserted(log), key)
  {
    hide Inserted, LastSource, Spare;
    var ins := Inserted(log);
    LiveMember(ins, key);
    forall t | |ins| - MAX_ENTRIES <= t < |ins| && 0 <= t
      ensures ins[t] != key
    {
      var j := t % MAX_ENTRIES;
      assert holder[j] == t;
      assert j < |ins| by {
        SlotUsed(t);
      }
      assert SlotGood(slots, holder, log, j);
    }
    if |ins| < MAX_ENTRIES {
      NotWritten(slots, holder, log, |ins|);
    }
  }

  lemma SlotUsed(t: nat)
    ensures t % MAX_ENTRIES <= t
  {
  }

  /** No key is in two written slots. */
  lemma {:induction false} OneSlot(slots: seq<Entry>, holder: seq<nat>, log: seq<Packet>, i: nat, j: nat)
    requires Table(slots, holder, log) && i < MAX_ENTRIES && j < MAX_ENTRIES && i != j
    requires i < |Inserted(log)| && j < |Inserted(log)|
    ensures slots[i].key != slots[j].key
  {
    hide Inserted, LastSource, Spare;
    var ins := Inserted(log);
    assert SlotGood(slots, holder, log, i) && SlotGood(slots, holder, log, j);
    LiveDistinct(log);
    var d := if |ins| <= MAX_ENTRIES then 0 else |ins| - MAX_ENTRIES;
    assert Live(ins)[holder[i] - d] == ins[holder[i]] && Live(ins)[holder[j] - d] == ins[holder[j]];
  }

  /** The slot in which a search finds a key. */
  ghost predicate FoundAt(slots: seq<Entry>, log: seq<Packet>, key: Key, i: nat)
    requires |slots| == MAX_ENTRIES
  {
    i < MAX_ENTRIES && slots[i].key == key && if i < |Inserted(log)| then true else key == 0 && i == |Inserted(log)|
  }

  /** A sender that is found. */
  lemma Refreshed(slots: seq<Entry>, holder: seq<nat>, log: seq<Packet>, p: Packet, i: nat)
    requires Table(slots, holder, log) && FoundAt(slots, log, p.mine, i)
    ensures Table(slots[i := Entry(p.mine, p.source)], holder, log + [p])
  {
    hide Inserted, LastSource, Live, Spare;
    var slots', log' := slots[i := Entry(p.mine, p.source)], log + [p];
    LogGrows(log, p);
    if i < |Inserted(log)| {
      InTable(slots, holder, log, i);
    }
    forall j | 0 <= j < MAX_ENTRIES
      ensures SlotGood(slots', holder, log', j)
    {
      RefreshedSlot(slots, holder, log, p, i, j);
    }
  }

  lemma {:induction false} RefreshedSlot(slots: seq<Entry>, holder: seq<nat>, log: seq<Packet>, p: Packet, i: nat,
                                         j: nat)
    requires Table(slots, holder, log) && FoundAt(slots, log, p.mine, i) && j < MAX_ENTRIES
    requires Found(Inserted(log), p.mine)
    ensures SlotGood(slots[i := Entry(p.mine, p.source)], holder, log + [p], j)
  {
    hide Inserted, LastSource, Live, Spare;
    var n := |Inserted(log)|;
    LogGrows(log, p);
    assert SlotGood(slots, holder, log, j) && SlotGood(slots, holder, log, i);
    if i < n {
      if j < n && i != j {
        OneSlot(slots, holder, log, i, j);
      }
      if n < MAX_ENTRIES {
        ZeroLate(log, holder[i]);
      }
    } else if j < n {
      ZeroLate(log, holder[j]);
    }
  }

  /** A sender that is not: it takes the slot of the oldest key. */
  lemma {:induction false} Entered(slots: seq<Entry>, holder: seq<nat>, log: seq<Packet>, p: Packet)
    requires Table(slots, holder, log) && !Found(Inserted(log), p.mine)
    ensures var n := |Inserted(log)|; var i := n % MAX_ENTRIES;
      |slots| == |holder| == MAX_ENTRIES && Table(slots[i := Entry(p.mine, p.source)], holder[i := n], log + [p])
  {
    hide Inserted, LastSource, Live, Spare;
    var ins, log' := Inserted(log), log + [p];
    var n := |ins|;
    var i := n % MAX_ENTRIES;
    var slots', holder' := slots[i := Entry(p.mine, p.source)], holder[i := n];
    LogGrows(log, p);
    forall j | 0 <= j < MAX_ENTRIES
      ensures SlotGood(slots', holder', log', j)
    {
      EnteredSlot(slots, holder, log, p, j);
    }
    forall t | 0 <= t < n + 1 && n + 1 - MAX_ENTRIES <= t
      ensures holder'[t % MAX_ENTRIES] == t
    {
      if t < n {
        SlotsDiffer(t, n);
      }
    }
  }

  lemma {:induction false} EnteredSlot(slots: seq<Entry>, holder: seq<nat>, log: seq<Packet>, p: Packet, j: nat)
    requires Table(slots, holder, log) && !Found(Inserted(log), p.mine) && j < MAX_ENTRIES
    ensures var n := |Inserted(log)|; var i := n % MAX_ENTRIES;
      SlotGood(slots[i := Entry(p.mine, p.source)], holder[i := n], log + [p], j)
  {
    hide Inserted, LastSource, Live, Spare;
    var n := |Inserted(log)|;
    var i := n % MAX_ENTRIES;
    LogGrows(log, p);
    assert SlotGood(slots, holder, log, j);
    if j != i {
      if n < MAX_ENTRIES {
        assert i == n;
      } else {
        SlotReused(n);
      }
      if j < n {
        assert slots[j].key != p.mine by {
          if slots[j].key == p.mine {
            InTable(slots, holder, log, j);
          }
        }
      }
    }
  }

  class Server {
    const entries: array<Entry>
    var nextEntry: nat
    ghost var log: seq<Packet>
    ghost var holder: seq<nat>  // which of the inserted keys a slot holds

    ghost predicate Valid()
      reads this, entries
    {
      entries.Length == MAX_ENTRIES && nextEntry == |Inserted(log)| % WRAP && Table(entries[..], holder, log)
    }

    constructor ()
      ensures Valid() && log == [] && fresh(entries)
    {
      entries := new Entry[MAX_ENTRIES](_ => EMPTY);
      nextEntry := 0;
      log := [];
      holder := seq(MAX_ENTRIES, _ => 0);
    }

    /** find_entry: the slot that holds the key, if one does; for the zero key the
        first slot never written, as long as there is one. */
    method FindEntry(key: Key) returns (i: Option<nat>)
      requires Valid()
      ensures i.Some? <==> Found(Inserted(log), key)
      ensures i.Some? ==> FoundAt(entries[..], log, key, i.value) && Known(log, key) == Some(entries[i.value].addr)
    {
      hide Inserted, LastSource, Live, Table, Spare, Known;
      for j := 0 to MAX_ENTRIES
        invariant forall m :: 0 <= m < j ==> entries[m].key != key
      {
        if entries[j].key == key {
          FoundHere(entries[..], holder, log, key, j);
          return Some(j);
        }
      }
      NotInTable(entries[..], holder, log, key);
      i := None;
    }

    /** find_or_insert_entry: the slot of the key, taken from the oldest key if need be. */
    method FindOrInsert(key: Key) returns (i: nat)
      requires Valid()
      modifies this`nextEntry, entries
      ensures i < MAX_ENTRIES && entries[..] == old(entries[..])[i := old(entries[i]).(key := key)]
      ensures Found(Inserted(log), key) ==> nextEntry == old(nextEntry) && FoundAt(old(entries[..]), log, key, i)
      ensures !Found(Inserted(log), key) ==>
        i == |Inserted(log)| % MAX_ENTRIES && nextEntry == (|Inserted(log)| + 1) % WRAP
    {
      hide Inserted, LastSource, Live, Table, Spare, Known;
      var found := FindEntry(key);
      if found.Some? {
        return found.value;
      }
      SlotOf(|Inserted(log)|);
      i := nextEntry % MAX_ENTRIES;
      nextEntry := (nextEntry + 1) % WRAP;
      entries[i] := entries[i].(key := key);
    }

    /** One turn of the receive loop: the sender is entered with its address, and the
        reply is the address known for the other key, if a search finds it. */
    method Receive(p: Packet) returns (reply: Option<Addr>)
      requires Valid()
      modifies this, entries
      ensures Valid() && log == old(log) + [p]
      ensures reply == Known(log, p.theirs)
    {
      hide Inserted, LastSource, Live, Table, Spare;
      ghost var ins, slots := Inserted(log), entries[..];
      LogGrows(log, p);
      var i := FindOrInsert(p.mine);
      entries[i] := entries[i].(addr := p.source);
      assert entries[..] == slots[i := Entry(p.mine, p.source)];
      if Found(ins, p.mine) {
        Refreshed(slots, holder, log, p, i);
      } else {
        Entered(slots, holder, log, p);
        holder := holder[i := |ins|];
      }
      log := log + [p];
      var found := FindEntry(p.theirs);
      if found.None? {
        return None;
      }
      reply := Some(entries[found.value].addr);
    }
  }

  /** The first slot with a key. */
  lemma {:induction false} FoundHere(slots: seq<Entry>, holder: seq<nat>, log: seq<Packet>, key: Key, j: nat)
    requires Table(slots, holder, log) && j < MAX_ENTRIES && slots[j].key == key
    requires forall m :: 0 <= m < j ==> slots[m].key != key
    ensures Found(Inserted(log), key) && FoundAt(slots, log, key, j) && Known(log, key) == Some(slots[j].addr)
  {
    hide Inserted, LastSource, Live, Spare, Known;
    var n := |Inserted(log)|;
    if j < n {
      InTable(slots, holder, log, j);
    } else {
      NotWritten(slots, holder, log, n);
      NotWritten(slots, holder, log, j);
    }
  }

  //
  // The client
  //

  /** The server at work while this client waits. */
  method Hear(server: Server, packets: seq<Packet>)
    requires server.Valid()
    modifies server, server.entries
    ensures server.Valid() && server.log == old(server.log) + packets
  {
    hide Inserted, Table;
    for i := 0 to |packets|
      invariant server.Valid() && server.log == old(server.log) + packets[..i]
    {
      var reply := server.Receive(packets[i]);
      assert packets[..i + 1] == packets[..i] + [packets[i]];
    }
  }

  lemma SentMore(log: seq<Packet>, more: seq<Packet>, k: Key, a: Addr)
    requires Sent(log, k, a)
    ensures Sent(log + more, k, a)
  {
    var m :| 0 <= m < |log| && log[m].mine == k && log[m].source == a;
    assert (log + more)[m] == log[m];
  }

  /** At most 65536 keys were ever put into the table. */
  predicate Roomy(log: seq<Packet>) {
    |Inserted(log)| <= MAX_ENTRIES
  }

  lemma RoomyBefore(log: seq<Packet>, more: seq<Packet>)
    requires Roomy(log + more)
    ensures Roomy(log)
  {
    InsertedMore(log, more);
  }

  predicate HasSent(log: seq<Packet>, k: Key) {
    LastSource(log, k).Some?
  }

  lemma {:induction false} HasSentMore(log: seq<Packet>, more: seq<Packet>, k: Key)
    requires HasSent(log, k)
    ensures HasSent(log + more, k)
  {
    KnownWasSent(log, k);
    KnownWasSent(log + more, k);
    var i :| 0 <= i < |log| && log[i].mine == k;
    assert (log + more)[i].mine == k;
  }

  class Client {
    const me: Key
    const source: Addr
    const keys: seq<Key>
    var haveSeen: seq<bool>
    var endpoints: seq<Option<Addr>>

    ghost predicate Valid()
      reads this
    {
      |haveSeen| == |endpoints| == |keys| && 0 !in keys
    }

    constructor (me: Key, source: Addr, keys: seq<Key>)
      requires 0 !in keys
      ensures Valid() && this.me == me && this.source == source && this.keys == keys
      ensures forall i :: 0 <= i < |keys| ==> !haveSeen[i]
    {
      this.me, this.source, this.keys := me, source, keys;
      haveSeen := seq(|keys|, _ => false);
      endpoints := seq(|keys|, _ => None);
    }

    /** A peer counts as seen only with an address that it sent from. */
    ghost predicate Truthful(log: seq<Packet>)
      requires Valid()
      reads this
    {
      forall i :: 0 <= i < |keys| && haveSeen[i] ==> endpoints[i].Some? && Sent(log, keys[i], endpoints[i].value)
    }

    /** One request: what the server knows of peer i is set as its endpoint. */
    method Ask(server: Server, i: nat) returns (seen: bool)
      requires Valid() && server.Valid() && i < |keys| && Truthful(server.log)
      modifies this, server, server.entries
      ensures Valid() && server.Valid() && server.log == old(server.log) + [Packet(me, keys[i], source)]
      ensures Truthful(server.log) && seen == Known(server.log, keys[i]).Some?
      ensures haveSeen == old(haveSeen)[i := seen || old(haveSeen[i])]
      ensures seen ==> endpoints == old(endpoints)[i := Known(server.log, keys[i])]
      ensures !seen ==> endpoints == old(endpoints)
    {
      ghost var before := server.log;
      var reply := server.Receive(Packet(me, keys[i], source));
      ghost var log := server.log;
      forall j | 0 <= j < |keys| && haveSeen[j]
        ensures Sent(log, keys[j], endpoints[j].value)
      {
        SentMore(before, [Packet(me, keys[i], source)], keys[j], endpoints[j].value);
      }
      seen := reply.Some?;
      if seen {
        KnownWasSent(log, keys[i]);
        haveSeen := haveSeen[i := true];
        endpoints := endpoints[i := reply];
      }
    }

    /** One pass over the peers, lines 174 to 201, while other clients send too: what
        arrives before the request for peer i is others[i]. */
    method Pass(server: Server, others: seq<seq<Packet>>) returns (repeat: bool)
      requires Valid() && server.Valid() && Truthful(server.log)
      requires |others| == |keys|
      modifies this, server, server.entries
      ensures Valid() && server.Valid() && Truthful(server.log) && old(server.log) <= server.log
      ensures forall i :: 0 <= i < |keys| && old(haveSeen[i]) ==> haveSeen[i] && endpoints[i] == old(endpoints[i])
      ensures repeat <==> exists i :: 0 <= i < |keys| && !haveSeen[i]
      ensures AllSent(old(server.log), keys) && Roomy(server.log) ==> !repeat
    {
      hide Inserted, Table, Roomy, HasSent, Sent;
      repeat := false;
      for i := 0 to |keys|
        invariant Valid() && server.Valid() && Truthful(server.log) && old(server.log) <= server.log
        invariant forall j :: 0 <= j < |keys| && old(haveSeen[j]) ==> haveSeen[j] && endpoints[j] == old(endpoints[j])
        invariant forall j :: i <= j < |keys| ==> haveSeen[j] == old(haveSeen[j])
        invariant repeat <==> exists j :: 0 <= j < i && !haveSeen[j]
        invariant repeat && AllSent(old(server.log), keys) ==> !Roomy(server.log)
      {
        ghost var before := haveSeen;
        var seen := PassOne(server, others[i], i, old(server.log));
        assert haveSeen[i] == seen && forall j :: 0 <= j < i ==> haveSeen[j] == before[j];
        repeat := repeat || !seen;
      }
    }

    /** One turn of that loop. */
    method PassOne(server: Server, packets: seq<Packet>, i: nat, ghost start: seq<Packet>) returns (seen: bool)
      requires Valid() && server.Valid() && Truthful(server.log) && i < |keys| && start <= server.log
      modifies this, server, server.entries
      ensures Valid() && server.Valid() && Truthful(server.log) && old(server.log) <= server.log
      ensures seen == haveSeen[i] && haveSeen == old(haveSeen)[i := seen]
      ensures old(haveSeen[i]) ==> seen && endpoints == old(endpoints)
      ensures |endpoints| == |old(endpoints)|
      ensures forall j :: 0 <= j < |keys| && j != i ==> endpoints[j] == old(endpoints[j])
      ensures !seen && HasSent(start, keys[i]) ==> !Roomy(server.log)
      ensures Roomy(server.log) ==> Roomy(old(server.log))
    {
      hide Inserted, LastSource, Table, Live, Sent;
      ghost var log0 := server.log;
      Hear(server, packets);
      ghost var log := server.log;
      forall j | 0 <= j < |keys| && haveSeen[j]
        ensures Sent(log, keys[j], endpoints[j].value)
      {
        SentMore(log0, packets, keys[j], endpoints[j].value);
      }
      seen := true;
      if !haveSeen[i] {
        seen := Ask(server, i);
      }
      ghost var end := server.log;
      ghost var rest := end[|log0|..];
      assert end == log0 + rest;
      if Roomy(end) {
        RoomyBefore(log0, rest);
        if HasSent(start, keys[i]) {
          assert end == start + end[|start|..];
          HasSentMore(start, end[|start|..], keys[i]);
          SendersKnown(end, keys[i]);
        }
      }
    }

    /** Passes until one leaves no peer unseen; passes holds what others send
        meanwhile, and starts the packets received when each pass began. The client
        finishes at the latest with a pass that begins when all peers have sent,
        unless a key is evicted. */
    method Run(server: Server, passes: seq<seq<seq<Packet>>>) returns (done: bool, ghost starts: seq<seq<Packet>>)
      requires Valid() && server.Valid() && Truthful(server.log)
      requires forall n :: 0 <= n < |passes| ==> |passes[n]| == |keys|
      modifies this, server, server.entries
      ensures Valid() && server.Valid() && Truthful(server.log) && old(server.log) <= server.log
      ensures done ==> forall i :: 0 <= i < |keys| ==> haveSeen[i]
      ensures |starts| <= |passes| && (!done ==> |starts| == |passes|)
      ensures forall n :: 0 <= n < |starts| ==> old(server.log) <= starts[n] <= server.log
      ensures Roomy(server.log) ==>
        forall n :: 0 <= n < |starts| && AllSent(starts[n], keys) ==> done && n == |starts| - 1
    {
      hide Inserted, Table, Roomy, AllSent, Sent;
      starts := [];
      for n := 0 to |passes|
        invariant Valid() && server.Valid() && Truthful(server.log) && old(server.log) <= server.log && |starts| == n
        invariant forall m :: 0 <= m < n ==> old(server.log) <= starts[m] <= server.log
        invariant forall m :: 0 <= m < n && AllSent(starts[m], keys) ==> !Roomy(server.log)
      {
        ghost var start := server.log;
        var repeat := Pass(server, passes[n]);
        starts := starts + [start];
        RoomyPrefix(start, server.log);
        if !repeat {
          return true, starts;
        }
      }
      done := false;
    }
  }

  predicate AllSent(log: seq<Packet>, keys: seq<Key>) {
    forall i :: 0 <= i < |keys| ==> HasSent(log, keys[i])
  }

  lemma RoomyPrefix(start: seq<Packet>, log: seq<Packet>)
    requires start <= log
    ensures Roomy(log) ==> Roomy(start)
  {
    if Roomy(log) {
      assert log == start + log[|start|..];
      RoomyBefore(start, log[|start|..]);
    }
  }
}
