/** Netlink attributes as the libmnl subset of wireguard.c writes and walks them
    (section 2.2 of RFC 3549): a 16-bit length, a 16-bit type, the payload, and
    zero padding to a multiple of four. Integers are in the byte order of a
    little-endian host. */
module Netlink {
  import Bits
  import opened Options
  import opened Words

  const NESTED: nat := 0x8000     // NLA_F_NESTED
  const TYPE_MASK: nat := 0x4000  // types keep the bits below the two flag bits

  datatype Attr = Attr(typ: nat, payload: seq<Byte>)

  function Align(n: nat): (r: nat)
    ensures n <= r < n + 4 && r % 4 == 0
  {
    (n + 3) / 4 * 4
  }

  lemma AlignAligned(n: nat)
    requires n % 4 == 0
    ensures Align(n) == n && Align(4 + n) == 4 + n
  {
    Bits.DivModUnique(n + 3, 4, n / 4, 3);
    Bits.DivModUnique(n + 7, 4, n / 4 + 1, 3);
  }

  lemma AlignedSum(m: nat, n: nat)
    requires m % 4 == 0 && n % 4 == 0
    ensures (m + n) % 4 == 0 && (m + 4 + n) % 4 == 0
  {
    Bits.DivModUnique(m + n, 4, m / 4 + n / 4, 0);
    Bits.DivModUnique(m + 4 + n, 4, m / 4 + n / 4 + 1, 0);
  }

  function Zeros(n: nat): (r: seq<Byte>)
    ensures |r| == n
  {
    seq(n, _ => 0)
  }

  /** Attributes whose length and type fit their 16-bit fields. */
  predicate Fits(a: Attr) {
    4 + |a.payload| < 0x1_0000 && a.typ < 0x1_0000
  }

  predicate AllFit(s: seq<Attr>) {
    forall k :: 0 <= k < |s| ==> Fits(s[k])
  }

  function Header(a: Attr): (r: seq<Byte>)
    ensures |r| == 4
  {
    Le16(4 + |a.payload|) + Le16(a.typ)
  }

  function Encode(a: Attr): (r: seq<Byte>)
    ensures |r| == 4 + Align(|a.payload|) && |r| % 4 == 0
  {
    AlignedSum(4, Align(|a.payload|));
    Header(a) + a.payload + Zeros(Align(|a.payload|) - |a.payload|)
  }

  /** struct nlattr and what follows it: the length without padding, the type, the payload,
      and zeros up to the next multiple of four. */
  lemma WireFormat(a: Attr)
    requires Fits(a)
    ensures var r, n := Encode(a), |a.payload|;
      GetLe16(r) == 4 + n && GetLe16(r[2..]) == a.typ && r[4..4 + n] == a.payload
      && 4 + n <= |r| < 8 + n && |r| % 4 == 0 && forall k :: 4 + n <= k < |r| ==> r[k] == 0
  {
    var r := Encode(a);
    Le16RoundTrip(4 + |a.payload|);
    Le16RoundTrip(a.typ);
    assert GetLe16(r) == GetLe16(Le16(4 + |a.payload|)) && GetLe16(r[2..]) == GetLe16(Le16(a.typ));
  }

  function EncodeAll(s: seq<Attr>): (r: seq<Byte>)
    ensures |r| % 4 == 0
  {
    if |s| == 0 then []
    else
      AlignedSum(|Encode(s[0])|, |EncodeAll(s[1..])|);
      Encode(s[0]) + EncodeAll(s[1..])
  }

  lemma {:induction false} EncodeAllAppend(s: seq<Attr>, a: Attr)
    ensures EncodeAll(s + [a]) == EncodeAll(s) + Encode(a)
  {
    hide EncodeAll, Encode;
    EncodeAllConcat(s, [a]);
    EncodeAllOne(a);
  }

  lemma {:induction false} EncodeAllCons(s: seq<Attr>)
    requires s != []
    ensures EncodeAll(s) == Encode(s[0]) + EncodeAll(s[1..])
  {
  }

  lemma {:induction false} EncodeAllConcat(s: seq<Attr>, t: seq<Attr>)
    ensures EncodeAll(s + t) == EncodeAll(s) + EncodeAll(t)
  {
    if s == [] {
      assert s + t == t;
    } else {
      hide EncodeAll, Encode;
      EncodeAllCons(s);
      EncodeAllCons(s + t);
      assert (s + t)[0] == s[0] && (s + t)[1..] == s[1..] + t;
      EncodeAllConcat(s[1..], t);
      Associate(Encode(s[0]), EncodeAll(s[1..]), EncodeAll(t));
    }
  }

  lemma EncodeAllOne(a: Attr)
    ensures EncodeAll([a]) == Encode(a)
  {
    assert [a][1..] == [];
  }

  /** mnl_attr_ok: a header and the length it announces fit in what is left. */
  predicate AttrOk(d: seq<Byte>) {
    |d| >= 4 && 4 <= GetLe16(d) <= |d|
  }

  function FirstAttr(d: seq<Byte>): Attr
    requires AttrOk(d)
  {
    Attr(GetLe16(d[2..]), d[4..GetLe16(d)])
  }

  /** mnl_attr_next: past the padding, or past the end when that is cut off. */
  function AfterFirst(d: seq<Byte>): (r: seq<Byte>)
    requires AttrOk(d)
    ensures |r| < |d|
  {
    var n := Align(GetLe16(d));
    if n <= |d| then d[n..] else []
  }

  /** The attributes that a walk over arbitrary bytes visits. */
  function Walk(d: seq<Byte>): seq<Attr>
    decreases |d|
  {
    if AttrOk(d) then [FirstAttr(d)] + Walk(AfterFirst(d)) else []
  }

  /** Walking what was encoded yields the same attributes. */
  lemma {:induction false} WalkEncodeAll(s: seq<Attr>)
    requires AllFit(s)
    ensures Walk(EncodeAll(s)) == s
  {
    if |s| > 0 {
      var rest := EncodeAll(s[1..]);
      FirstOfEncoded(s[0], rest);
      WalkEncodeAll(s[1..]);
    }
  }

  lemma FirstOfEncoded(a: Attr, rest: seq<Byte>)
    requires Fits(a)
    ensures var d := Encode(a) + rest; AttrOk(d) && FirstAttr(d) == a && AfterFirst(d) == rest
  {
    var d, n := Encode(a) + rest, |a.payload|;
    assert d[..2] == Le16(4 + n);
    assert d[2..][..2] == Le16(a.typ);
    Le16RoundTrip(4 + n);
    Le16RoundTrip(a.typ);
    assert d[4..4 + n] == a.payload;
    AlignHeader(n);
  }

  lemma AlignHeader(n: nat)
    ensures Align(4 + n) == 4 + Align(n)
  {
    Bits.DivModUnique(n + 7, 4, (n + 3) / 4 + 1, (n + 3) % 4);
  }

  /** Byte ranges of the visited attributes, header included, padding excluded. */
  function Spans(d: seq<Byte>, at: nat): seq<(nat, nat)>
    decreases |d|
  {
    if AttrOk(d) then [(at, at + GetLe16(d))] + Spans(AfterFirst(d), at + (|d| - |AfterFirst(d)|)) else []
  }

  predicate Inside(spans: seq<(nat, nat)>, lo: nat, hi: nat) {
    forall k :: 0 <= k < |spans| ==> lo <= spans[k].0 < spans[k].1 <= hi
  }

  predicate Disjoint(spans: seq<(nat, nat)>) {
    forall j, k :: 0 <= j < k < |spans| ==> spans[j].1 <= spans[k].0
  }

  /** On arbitrary bytes the walk stays inside them and never visits a byte twice. */
  lemma {:induction false} WalkInBounds(d: seq<Byte>, at: nat)
    ensures |Spans(d, at)| == |Walk(d)| && Inside(Spans(d, at), at, at + |d|) && Disjoint(Spans(d, at))
    decreases |d|
  {
    if AttrOk(d) {
      var tail, n := AfterFirst(d), GetLe16(d);
      var next := at + (|d| - |tail|);
      assert n <= |d| - |tail|;
      WalkInBounds(tail, next);
      SpansCons((at, at + n), Spans(tail, next), next, at + |d|);
    }
  }

  lemma SpansCons(first: (nat, nat), rest: seq<(nat, nat)>, mid: nat, hi: nat)
    requires first.0 < first.1 <= mid <= hi && Inside(rest, mid, hi) && Disjoint(rest)
    ensures Inside([first] + rest, first.0, hi) && Disjoint([first] + rest)
  {
  }

  //
  // Trees of attributes
  //

  /** An attribute with its payload, or a nest with what is inside. */
  datatype Tree = Leaf(typ: nat, payload: seq<Byte>) | Node(typ: nat, kids: seq<Tree>)

  function AttrOf(t: Tree): Attr {
    match t
    case Leaf(typ, payload) => Attr(typ, payload)
    case Node(typ, kids) => Attr(NESTED + typ, EncodeAll(AttrsOf(kids)))
  }

  function AttrsOf(ts: seq<Tree>): (r: seq<Attr>)
    ensures |r| == |ts|
  {
    if ts == [] then [] else [AttrOf(ts[0])] + AttrsOf(ts[1..])
  }

  /** Types leave the flag bits alone. */
  predicate Proper(t: Tree) {
    t.typ < TYPE_MASK && (t.Node? ==> AllProper(t.kids))
  }

  predicate AllProper(ts: seq<Tree>) {
    ts == [] || (Proper(ts[0]) && AllProper(ts[1..]))
  }

  /** Walking attributes and, where the nest flag is set, what is inside them. */
  function WalkTrees(d: seq<Byte>): seq<Tree>
    decreases |d|
  {
    if AttrOk(d) then
      var a := FirstAttr(d);
      var t := if a.typ >= NESTED then Node(a.typ - NESTED, WalkTrees(a.payload)) else Leaf(a.typ, a.payload);
      [t] + WalkTrees(AfterFirst(d))
    else []
  }

  lemma {:induction false} WalkTreesCons(a: Attr, rest: seq<Byte>)
    requires Fits(a)
    ensures WalkTrees(Encode(a) + rest)
         == [if a.typ >= NESTED then Node(a.typ - NESTED, WalkTrees(a.payload)) else Leaf(a.typ, a.payload)]
            + WalkTrees(rest)
  {
    hide Encode;
    FirstOfEncoded(a, rest);
  }

  lemma {:induction false} AttrsOfCons(ts: seq<Tree>)
    requires ts != []
    ensures EncodeAll(AttrsOf(ts)) == Encode(AttrOf(ts[0])) + EncodeAll(AttrsOf(ts[1..]))
  {
    hide Encode, AttrOf;
    assert AttrsOf(ts)[1..] == AttrsOf(ts[1..]);
  }

  /** Walking an encoded forest yields the same types, payloads and nesting. */
  lemma {:induction false} WalkForest(ts: seq<Tree>)
    requires AllProper(ts) && |EncodeAll(AttrsOf(ts))| < 0x1_0000
    ensures WalkTrees(EncodeAll(AttrsOf(ts))) == ts
  {
    hide WalkTrees, EncodeAll, AttrsOf, Encode, AttrOk;
    if ts == [] {
      WalkNothing();
    } else {
      AttrsOfCons(ts);
      WalkTreesCons(AttrOf(ts[0]), EncodeAll(AttrsOf(ts[1..])));
      WalkForest(ts[1..]);
      if ts[0].Node? {
        WalkForest(ts[0].kids);
      }
    }
  }

  lemma WalkNothing()
    ensures WalkTrees(EncodeAll(AttrsOf([]))) == []
  {
  }

  lemma {:induction false} AttrsOfAppend(ts: seq<Tree>, t: Tree)
    ensures AttrsOf(ts + [t]) == AttrsOf(ts) + [AttrOf(t)]
  {
    hide AttrOf;
    if ts != [] {
      assert (ts + [t])[1..] == ts[1..] + [t];
      AttrsOfAppend(ts[1..], t);
    }
  }

  //
  // Building a message
  //

  const MESSAGE_HEADER: nat := 20  // nlmsghdr and genlmsghdr

  /** Attributes under construction with their encoding: those of the message
      itself, or those of a nest opened at offset start inside another list. */
  datatype Open =
    | Root(attrs: seq<Attr>, content: seq<Byte>)
    | Nest(around: Open, typ: nat, start: nat, attrs: seq<Attr>, content: seq<Byte>)

  /** The same lists as forests: the trees put so far, and around them those of the
      lists that are still open. */
  datatype Forest = Top(trees: seq<Tree>) | Within(around: Forest, typ: nat, trees: seq<Tree>)

  /** A tree added to the innermost list. */
  ghost function Planted(f: Forest, t: Tree): (r: Forest)
    ensures r.Top? <==> f.Top?
  {
    f.(trees := f.trees + [t])
  }

  /** The innermost nest closed: a tree of the list around it. */
  ghost function Rooted(f: Forest): Forest
    requires f.Within?
  {
    Planted(f.around, Node(f.typ, f.trees))
  }

  ghost predicate Matches(o: Open, f: Forest) {
    o.attrs == AttrsOf(f.trees)
    && match (o, f)
       case (Root(_, _), Top(_)) => true
       case (Nest(around, typ, _, _, _), Within(around', typ', _)) => typ == typ' && Matches(around, around')
       case _ => false
  }

  lemma {:induction false} PlantedMatches(o: Open, f: Forest, t: Tree)
    requires Matches(o, f)
    ensures Matches(Grown(o, AttrOf(t)), Planted(f, t))
  {
    AttrsOfAppend(f.trees, t);
  }

  ghost predicate Encoded(o: Open) {
    o.content == EncodeAll(o.attrs) && (o.Nest? ==> Encoded(o.around))
  }

  /** The bytes d hold the open lists, each nest opened at the end of the list
      around it. The length field of an open nest is not yet written. */
  ghost predicate LaidOut(d: seq<Byte>, o: Open) {
    |o.content| % 4 == 0 &&
    match o
    case Root(_, content) => |d| >= MESSAGE_HEADER && d[MESSAGE_HEADER..] == content
    case Nest(around, typ, start, _, content) =>
      start + 4 <= |d| && typ < TYPE_MASK
      && d[start + 2..start + 4] == Le16(NESTED + typ) && d[start + 4..] == content
      && LaidOut(d[..start], around)
  }

  /** The length of a message in which these lists are open. */
  ghost function LenOf(o: Open): nat {
    match o
    case Root(_, content) => MESSAGE_HEADER + |content|
    case Nest(_, _, start, _, content) => start + 4 + |content|
  }

  /** An attribute added to the innermost list. */
  ghost function Grown(o: Open, a: Attr): (r: Open)
    ensures r.Root? <==> o.Root?
  {
    o.(attrs := o.attrs + [a], content := o.content + Encode(a))
  }

  /** The innermost nest closed and added to the list around it. */
  ghost function Closed(o: Open): Open
    requires o.Nest?
  {
    Grown(o.around, Attr(NESTED + o.typ, o.content))
  }

  /** Several attributes added one after the other. */
  ghost function GrownAll(o: Open, attrs: seq<Attr>): (r: Open)
    ensures r.Root? <==> o.Root?
  {
    o.(attrs := o.attrs + attrs, content := o.content + EncodeAll(attrs))
  }

  /** Closing a nest right after filling it. */
  lemma {:induction false} NestOf(o: Open, typ: nat, start: nat, attrs: seq<Attr>)
    ensures Closed(GrownAll(Nest(o, typ, start, [], []), attrs)) == Grown(o, Attr(NESTED + typ, EncodeAll(attrs)))
  {
    assert [] + EncodeAll(attrs) == EncodeAll(attrs);
  }

  lemma GrownAllOne(o: Open, attrs: seq<Attr>, a: Attr)
    ensures Grown(GrownAll(o, attrs), a) == GrownAll(o, attrs + [a])
  {
    EncodeAllAppend(attrs, a);
    assert o.attrs + attrs + [a] == o.attrs + (attrs + [a]);
    assert o.content + EncodeAll(attrs) + Encode(a) == o.content + (EncodeAll(attrs) + Encode(a));
  }

  lemma NothingPut(o: Open)
    ensures EncodeAll([]) == [] && GrownAll(o, []) == o
  {
  }

  lemma GrownAllStep(o: Open, attrs: seq<Attr>, k: nat)
    requires k < |attrs|
    ensures Grown(GrownAll(o, attrs[..k]), attrs[k]) == GrownAll(o, attrs[..k + 1])
    ensures |EncodeAll(attrs[..k + 1])| == |EncodeAll(attrs[..k])| + 4 + Align(|attrs[k].payload|)
  {
    assert attrs[..k + 1] == attrs[..k] + [attrs[k]];
    EncodeAllAppend(attrs[..k], attrs[k]);
    GrownAllOne(o, attrs[..k], attrs[k]);
  }

  lemma {:induction false} EncodeAllLonger(attrs: seq<Attr>, k: nat)
    requires k <= |attrs|
    ensures |EncodeAll(attrs[..k])| <= |EncodeAll(attrs)|
    decreases |attrs| - k
  {
    if k == |attrs| {
      assert attrs[..k] == attrs;
    } else {
      EncodeAllLonger(attrs, k + 1);
      assert attrs[..k + 1] == attrs[..k] + [attrs[k]];
      EncodeAllAppend(attrs[..k], attrs[k]);
    }
  }

  lemma {:induction false} GrownEncoded(o: Open, a: Attr)
    requires Encoded(o)
    ensures Encoded(Grown(o, a))
  {
    EncodeAllAppend(o.attrs, a);
  }

  lemma {:induction false} LaidOutAligned(d: seq<Byte>, o: Open)
    requires LaidOut(d, o)
    ensures |d| % 4 == 0 && |d| >= MESSAGE_HEADER
  {
    var n := |o.content|;
    match o
    case Root(_, _) =>
      assert |d| == MESSAGE_HEADER + n;
      AlignedSum(MESSAGE_HEADER, n);
    case Nest(around, _, start, _, _) =>
      LaidOutAligned(d[..start], around);
      assert |d| == start + 4 + n;
      AlignedSum(start, n);
  }

  lemma GrownLaidOut(d: seq<Byte>, o: Open, attrs: seq<Attr>, bytes: seq<Byte>)
    requires LaidOut(d, o) && |bytes| % 4 == 0
    ensures LaidOut(d + bytes, o.(attrs := attrs, content := o.content + bytes))
  {
    var d' := d + bytes;
    AlignedSum(|o.content|, |bytes|);
    match o
    case Root(_, _) =>
      assert d'[MESSAGE_HEADER..] == d[MESSAGE_HEADER..] + bytes;
    case Nest(_, _, start, _, _) =>
      assert d'[start + 4..] == d[start + 4..] + bytes;
      assert d'[start + 2..start + 4] == d[start + 2..start + 4];
      assert d'[..start] == d[..start];
  }

  lemma {:induction false} OpenedLaidOut(d: seq<Byte>, o: Open, typ: nat, d': seq<Byte>)
    requires LaidOut(d, o) && typ < TYPE_MASK
    requires |d'| == |d| + 4 && d'[..|d|] == d && d'[|d| + 2..] == Le16(NESTED + typ)
    ensures LaidOut(d', Nest(o, typ, |d|, [], []))
  {
    assert d'[|d| + 2..|d| + 4] == d'[|d| + 2..];
    assert d'[|d| + 4..] == [];
  }

  lemma NestBytes(d: seq<Byte>, typ: nat, s: nat, content: seq<Byte>, d': seq<Byte>)
    requires |content| % 4 == 0 && s + 4 <= |d|
    requires d[s + 2..s + 4] == Le16(NESTED + typ) && d[s + 4..] == content
    requires |d'| == |d| && d'[..s] == d[..s] && d'[s + 2..] == d[s + 2..] && d'[s..s + 2] == Le16(|d| - s)
    ensures d' == d[..s] + Encode(Attr(NESTED + typ, content))
  {
    AlignAligned(|content|);
    assert |d| - s == 4 + |content|;
    var tail := d'[s + 2..];
    assert d'[s + 2..s + 4] == tail[..2] == d[s + 2..][..2] == d[s + 2..s + 4];
    assert d'[s + 4..] == tail[2..] == d[s + 2..][2..] == d[s + 4..];
    assert d' == d'[..s] + (d'[s..s + 2] + d'[s + 2..s + 4]) + d'[s + 4..];
  }

  lemma {:induction false} OpenedMatches(o: Open, f: Forest, typ: nat, start: nat)
    requires Encoded(o) && Matches(o, f)
    ensures Encoded(Nest(o, typ, start, [], [])) && Matches(Nest(o, typ, start, [], []), Within(f, typ, []))
  {
  }

  /** Without its innermost nest a message is what it was before. */
  lemma {:induction false} NestDropped(d: seq<Byte>, o: Open, f: Forest)
    requires LaidOut(d, o) && Encoded(o) && Matches(o, f) && o.Nest?
    ensures o.start <= |d| && Align(|d|) == |d| && f.Within? && (o.around.Nest? <==> f.around.Within?)
    ensures LaidOut(d[..o.start], o.around) && Encoded(o.around) && Matches(o.around, f.around)
  {
    hide EncodeAll, AttrsOf;
    LaidOutAligned(d, o);
    AlignAligned(|d|);
    assert Matches(o.around, f.around);
  }

  /** The bytes before and behind a type field that was written. */
  lemma Opened(before: seq<Byte>, reserved: seq<Byte>, after: seq<Byte>, typ: nat)
    requires |reserved| == |after| == |before| + 4 && reserved[..|before|] == before
    requires after[..|before| + 2] == reserved[..|before| + 2]
    requires after[|before| + 2..|before| + 4] == Le16(NESTED + typ)
    ensures after[..|before|] == before && after[|before| + 2..] == Le16(NESTED + typ)
  {
    var n := |before|;
    assert after[..n] == after[..n + 2][..n] && reserved[..n] == reserved[..n + 2][..n];
    assert after[n + 2..] == after[n + 2..n + 4];
  }

  lemma {:induction false} NestRoom(d: seq<Byte>, o: Open)
    requires LaidOut(d, o) && o.Nest?
    ensures o.start + 4 <= |d|
  {
  }

  /** Writing the length of the innermost nest makes it an attribute. */
  lemma {:induction false} NestClosed(before: seq<Byte>, after: seq<Byte>, o: Open, f: Forest)
    requires LaidOut(before, o) && Encoded(o) && Matches(o, f) && o.Nest? && o.start + 4 <= |before| == |after|
    requires after[..o.start] == before[..o.start] && after[o.start + 2..] == before[o.start + 2..]
    requires after[o.start..o.start + 2] == Le16(|before| - o.start)
    ensures f.Within? && LaidOut(after, Closed(o)) && Encoded(Closed(o)) && Matches(Closed(o), Rooted(f))
    ensures Closed(o).Nest? <==> Rooted(f).Within?
  {
    hide Encode, EncodeAll, Le16, AttrsOf;
    var a := Attr(NESTED + o.typ, o.content);
    NestBytes(before, o.typ, o.start, o.content, after);
    EncodeAligned(a);
    hide Align;
    GrownLaidOut(before[..o.start], o.around, o.around.attrs + [a], Encode(a));
    GrownEncoded(o.around, a);
    PlantedMatches(o.around, f.around, Node(f.typ, f.trees));
  }

  function Leaves(attrs: seq<Attr>): (r: seq<Tree>)
    ensures |r| == |attrs|
  {
    seq(|attrs|, k requires 0 <= k < |attrs| => Leaf(attrs[k].typ, attrs[k].payload))
  }

  lemma EncodeAligned(a: Attr)
    ensures |Encode(a)| % 4 == 0
  {
  }

  /** Always true; mentioning it is what brings the layout of a message into a
      proof, so that the code that only calls its methods does not unfold it. */
  ghost predicate Inspect(t: int) {
    true
  }

  /** A message under construction: the buffer, nlmsg_len, and what is open in it.

      len is the nlmsg_len field of the header; the other header fields are not
      interpreted. Nests are closed and cancelled innermost first. */
  class Message {
    var buf: array<Byte>
    var len: nat
    ghost var open: Open
    ghost var forest: Forest

    ghost predicate Valid()
      reads this, buf
    {
      len <= buf.Length && (open.Nest? <==> forest.Within?)
      && forall t {:trigger Inspect(t)} :: Inspect(t) ==>
           LaidOut(buf[..len], open) && Encoded(open) && Matches(open, forest)
    }

    constructor (buflen: nat)
      requires MESSAGE_HEADER <= buflen
      ensures Valid() && open == Root([], []) && forest == Top([])
      ensures fresh(buf) && buf.Length == buflen && len == MESSAGE_HEADER
    {
      buf := new Byte[buflen];
      len := MESSAGE_HEADER;
      open, forest := Root([], []), Top([]);
      new;
      assert buf[..len][MESSAGE_HEADER..] == [];
    }

    /** mnl_attr_put: the caller has made room. */
    method Put(typ: nat, data: seq<Byte>)
      requires Valid() && len + 4 + Align(|data|) <= buf.Length
      modifies this, buf
      ensures Valid() && buf == old(buf) && len == old(len) + 4 + Align(|data|)
      ensures open == Grown(old(open), Attr(typ, data)) && forest == Planted(old(forest), Leaf(typ, data))
    {
      assert Inspect(0);
      var a := Attr(typ, data);
      var bytes := Encode(a);
      ghost var before := buf[..len];
      EncodeAligned(a);
      GrownLaidOut(before, open, open.attrs + [a], bytes);
      GrownEncoded(open, a);
      PlantedMatches(open, forest, Leaf(typ, data));
      Append(bytes);
      open, forest := Grown(open, a), Planted(forest, Leaf(typ, data));
    }

    /** Checked puts one after the other, stopping at the first that does not fit. */
    method PutAllCheck(attrs: seq<Attr>) returns (ok: bool)
      requires Valid()
      modifies this, buf
      ensures Valid() && buf == old(buf)
      ensures ok <==> old(len) + |EncodeAll(attrs)| <= buf.Length
      ensures ok ==> len == old(len) + |EncodeAll(attrs)| && open == GrownAll(old(open), attrs)
      ensures open == old(open).(attrs := open.attrs, content := open.content)
      ensures forest == old(forest).(trees := forest.trees)
      ensures ok ==> forest.trees == old(forest.trees) + Leaves(attrs)
    {
      hide EncodeAll, Encode, Align;
      assert attrs[..0] == [];
      NothingPut(open);
      for k := 0 to |attrs|
        invariant Valid() && buf == old(buf)
        invariant forest == old(forest).(trees := old(forest.trees) + Leaves(attrs[..k]))
        invariant len == old(len) + |EncodeAll(attrs[..k])|
        invariant open == GrownAll(old(open), attrs[..k])
      {
        GrownAllStep(old(open), attrs, k);
        assert attrs[..k + 1] == attrs[..k] + [attrs[k]];
        EncodeAllLonger(attrs, k + 1);
        var fits := PutCheck(attrs[k].typ, attrs[k].payload);
        if !fits {
          return false;
        }
      }
      assert attrs[..|attrs|] == attrs;
      ok := true;
    }

    /** Copies bytes to the end of the message. */
    method Append(bytes: seq<Byte>)
      requires len + |bytes| <= buf.Length
      modifies this`len, buf
      ensures len == old(len) + |bytes| && buf[..len] == old(buf[..len]) + bytes
    {
      ghost var before := buf[..len];
      forall k | 0 <= k < |bytes| {
        buf[len + k] := bytes[k];
      }
      len := len + |bytes|;
      assert buf[..len] == before + bytes;
    }

    /** mnl_attr_put_check: puts the attribute if the buffer has room for it. */
    method PutCheck(typ: nat, data: seq<Byte>) returns (ok: bool)
      requires Valid()
      modifies this, buf
      ensures Valid() && buf == old(buf)
      ensures ok <==> old(len) + 4 + Align(|data|) <= buf.Length
      ensures ok ==> len == old(len) + 4 + Align(|data|) && open == Grown(old(open), Attr(typ, data))
      ensures ok ==> forest == Planted(old(forest), Leaf(typ, data))
      ensures !ok ==> len == old(len) && open == old(open) && forest == old(forest)
    {
      ok := len + 4 + Align(|data|) <= buf.Length;
      if ok {
        Put(typ, data);
      }
    }

    /** mnl_attr_nest_start: the caller has made room. */
    method NestStart(typ: nat) returns (start: nat)
      requires Valid() && typ < TYPE_MASK && len + 4 <= buf.Length
      modifies this, buf
      ensures Valid() && buf == old(buf) && start == old(len) && len == old(len) + 4
      ensures open == Nest(old(open), typ, start, [], []) && forest == Within(old(forest), typ, [])
    {
      hide LaidOut, Encoded, Matches;
      assert Inspect(0);
      ghost var before := buf[..len];
      start := len;
      Reserve();
      ghost var reserved := buf[..len];
      WriteField(start + 2, NESTED + typ);
      Opened(before, reserved, buf[..len], typ);
      OpenedLaidOut(before, open, typ, buf[..len]);
      OpenedMatches(open, forest, typ, start);
      open, forest := Nest(open, typ, start, [], []), Within(forest, typ, []);
    }

    /** Room for the header of an attribute. */
    method Reserve()
      requires len + 4 <= buf.Length
      modifies this`len
      ensures len == old(len) + 4 && buf[..len][..old(len)] == old(buf[..len])
    {
      len := len + 4;
    }

    /** mnl_attr_nest_start_check: None when the buffer has no room. */
    method NestStartCheck(typ: nat) returns (start: Option<nat>)
      requires Valid() && typ < TYPE_MASK
      modifies this, buf
      ensures Valid() && buf == old(buf)
      ensures start.Some? <==> old(len) + 4 <= buf.Length
      ensures start.Some? ==> start.value == old(len) && len == old(len) + 4
      ensures start.Some? ==> open == Nest(old(open), typ, start.value, [], [])
      ensures start.Some? ==> forest == Within(old(forest), typ, [])
      ensures start.None? ==> len == old(len) && open == old(open) && forest == old(forest)
    {
      if len + 4 > buf.Length {
        return None;
      }
      var s := NestStart(typ);
      start := Some(s);
    }

    /** mnl_attr_nest_end: writes the length of the innermost nest. */
    method NestEnd(start: nat)
      requires Valid() && open.Nest? && open.start == start
      modifies this, buf
      ensures Valid() && buf == old(buf) && len == old(len)
      ensures open == Closed(old(open)) && forest == Rooted(old(forest))
    {
      hide LaidOut, Encoded, Matches, Closed, Rooted, Le16;
      assert Inspect(0);
      ghost var before := buf[..len];
      NestRoom(before, open);
      WriteField(start, len - start);
      NestClosed(before, buf[..len], open, forest);
      open, forest := Closed(open), Rooted(forest);
    }

    /** A 16-bit field of the message. */
    method WriteField(at: nat, x: nat)
      requires at + 2 <= len <= buf.Length
      modifies buf
      ensures var d, e := old(buf[..len]), buf[..len];
        e[..at] == d[..at] && e[at..at + 2] == Le16(x) && e[at + 2..] == d[at + 2..]
      ensures forall k :: len <= k < buf.Length ==> buf[k] == old(buf[k])
    {
      buf[at], buf[at + 1] := x % 256, x / 256 % 256;
    }

    /** mnl_attr_nest_cancel: drops the innermost nest with all it holds. */
    method NestCancel(start: nat)
      requires Valid() && open.Nest? && open.start == start
      modifies this
      ensures Valid() && buf == old(buf) && len == start <= old(len)
      ensures open == old(open).around && forest == old(forest).around
    {
      hide LaidOut, Encoded, Matches, Align;
      assert Inspect(0);
      NestDropped(buf[..len], open, forest);
      assert buf[..len][..start] == buf[..start];
      len := len - (Align(len) - start);
      open, forest := open.around, forest.around;
    }

    lemma LenIs()
      requires Valid()
      ensures len == LenOf(open)
    {
      hide Matches, Encoded;
      assert Inspect(0);
    }

    /** A finished message walks back to exactly the trees put into it, each nest with
        what is inside, and without the cancelled parts. */
    lemma Finished()
      requires Valid() && open.Root? && AllProper(forest.trees) && len < 0x1_0000
      ensures MESSAGE_HEADER <= len && WalkTrees(buf[MESSAGE_HEADER..len]) == forest.trees
    {
      assert Inspect(0);
      assert buf[..len][MESSAGE_HEADER..] == buf[MESSAGE_HEADER..len];
      WalkForest(forest.trees);
    }
  }

  /** Any forest can be built. */
  method Build(m: Message, ts: seq<Tree>)
    requires m.Valid() && AllProper(ts) && m.len + |EncodeAll(AttrsOf(ts))| <= m.buf.Length
    modifies m, m.buf
    ensures m.Valid() && m.buf == old(m.buf) && m.len == old(m.len) + |EncodeAll(AttrsOf(ts))|
    ensures m.open == GrownAll(old(m.open), AttrsOf(ts))
    ensures m.forest == old(m.forest).(trees := old(m.forest.trees) + ts)
    decreases ts
  {
    hide EncodeAll, AttrsOf, Encode, Inspect;
    ghost var before := m.forest.trees;
    if ts == [] {
      BuiltNothing(m.open);
      assert before + ts == before;
      return;
    }
    var t := ts[0];
    assert before + ts == before + [t] + ts[1..];
    AttrsOfCons(ts);
    BuiltMore(m.open, ts);
    if t.Leaf? {
      m.Put(t.typ, t.payload);
    } else {
      var start := m.NestStart(t.typ);
      Build(m, t.kids);
      assert [] + t.kids == t.kids;
      NestOf(old(m.open), t.typ, start, AttrsOf(t.kids));
      m.NestEnd(start);
    }
    Build(m, ts[1..]);
  }

  lemma BuiltNothing(o: Open)
    ensures EncodeAll(AttrsOf([])) == [] && GrownAll(o, AttrsOf([])) == o
  {
  }

  lemma {:induction false} BuiltMore(o: Open, ts: seq<Tree>)
    requires ts != []
    ensures GrownAll(Grown(o, AttrOf(ts[0])), AttrsOf(ts[1..])) == GrownAll(o, AttrsOf(ts))
    ensures |Encode(AttrOf(ts[0]))| == 4 + Align(|AttrOf(ts[0]).payload|)
    ensures ts[0].Node? ==> Align(|AttrOf(ts[0]).payload|) == |EncodeAll(AttrsOf(ts[0].kids))|
  {
    hide EncodeAll, Encode, Align;
    AttrsOfCons(ts);
    GrownMore(o, AttrOf(ts[0]), AttrsOf(ts[1..]));
    assert AttrsOf(ts) == [AttrOf(ts[0])] + AttrsOf(ts[1..]);
    if ts[0].Node? {
      AlignAligned(|EncodeAll(AttrsOf(ts[0].kids))|);
    }
  }

  lemma {:induction false} GrownMore(o: Open, a: Attr, rest: seq<Attr>)
    requires EncodeAll([a] + rest) == Encode(a) + EncodeAll(rest)
    ensures GrownAll(Grown(o, a), rest) == GrownAll(o, [a] + rest)
  {
    hide EncodeAll, Encode;
    assert o.attrs + [a] + rest == o.attrs + ([a] + rest);
    assert o.content + Encode(a) + EncodeAll(rest) == o.content + (Encode(a) + EncodeAll(rest));
  }

  /** Building a forest and walking the message gives it back. */
  method BuildThenWalk(ts: seq<Tree>) returns (d: seq<Byte>)
    requires AllProper(ts) && MESSAGE_HEADER + |EncodeAll(AttrsOf(ts))| < 0x1_0000
    ensures |d| >= MESSAGE_HEADER && WalkTrees(d[MESSAGE_HEADER..]) == ts
  {
    hide EncodeAll, AttrsOf, WalkTrees;
    var m := new Message(MESSAGE_HEADER + |EncodeAll(AttrsOf(ts))|);
    Build(m, ts);
    assert [] + ts == ts;
    m.Finished();
    d := m.buf[..m.len];
    assert d[MESSAGE_HEADER..] == m.buf[MESSAGE_HEADER..m.len];
  }
}
