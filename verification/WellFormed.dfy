/** Which configurations are shown without an error: the names that belong to each
    section, the values they take, and that highlighting marks an error exactly where a
    text departs from this grammar. */
module WellFormed {
  import opened Words
  import opened ConfigText
  import opened Highlighting

  //
  // Names
  //

  /** Two characters that differ at most in case. */
  predicate SameLetter(c: char, d: char) {
    c == d
    || ('a' <= c <= 'z' && d as int == c as int - 32)
    || ('a' <= d <= 'z' && c as int == d as int - 32)
  }

  lemma CaselessLetters(t: string, name: string)
    ensures CaselessSame(t, name) <==> |t| == |name| && forall i :: 0 <= i < |t| ==> SameLetter(t[i], name[i])
  {
  }

  /** Every name has its own field, and nothing else has. */
  lemma FieldNames(t: string)
    ensures GetField(t) == PrivateKey <==> CaselessSame(t, "PrivateKey")
    ensures GetField(t) == ListenPort <==> CaselessSame(t, "ListenPort")
    ensures GetField(t) == Address <==> CaselessSame(t, "Address")
    ensures GetField(t) == DNS <==> CaselessSame(t, "DNS")
    ensures GetField(t) == MTU <==> CaselessSame(t, "MTU")
    ensures GetField(t) == FwMark <==> CaselessSame(t, "FwMark")
    ensures GetField(t) == Table <==> CaselessSame(t, "Table")
    ensures GetField(t) == PreUp <==> CaselessSame(t, "PreUp")
    ensures GetField(t) == PostUp <==> CaselessSame(t, "PostUp")
    ensures GetField(t) == PreDown <==> CaselessSame(t, "PreDown")
    ensures GetField(t) == PostDown <==> CaselessSame(t, "PostDown")
    ensures GetField(t) == SaveConfig <==> CaselessSame(t, "SaveConfig")
    ensures GetField(t) == PublicKey <==> CaselessSame(t, "PublicKey")
    ensures GetField(t) == PresharedKey <==> CaselessSame(t, "PresharedKey")
    ensures GetField(t) == AllowedIPs <==> CaselessSame(t, "AllowedIPs")
    ensures GetField(t) == Endpoint <==> CaselessSame(t, "Endpoint")
    ensures GetField(t) == PersistentKeepalive <==> CaselessSame(t, "PersistentKeepalive")
    ensures GetField(t) !in [InterfaceSection, PeerSection]
  {
    hide CaselessSame;
    // names of the same length have different first letters
    Told(t, "PrivateKey", 'P', 10);
    Told(t, "ListenPort", 'L', 10);
    Told(t, "Address", 'A', 7);
    Told(t, "DNS", 'D', 3);
    Told(t, "MTU", 'M', 3);
    Told(t, "PublicKey", 'P', 9);
    Told(t, "PresharedKey", 'P', 12);
    Told(t, "AllowedIPs", 'A', 10);
    Told(t, "Endpoint", 'E', 8);
    Told(t, "PersistentKeepalive", 'P', 19);
    Told(t, "FwMark", 'F', 6);
    Told(t, "Table", 'T', 5);
    Told(t, "PreUp", 'P', 5);
    Told(t, "PostUp", 'P', 6);
    Told(t, "PreDown", 'P', 7);
    Told(t, "PostDown", 'P', 8);
    Told(t, "SaveConfig", 'S', 10);
  }

  lemma Told(t: string, name: string, c: char, n: nat)
    requires name != "" && name[0] == c && |name| == n && Upper(c) == c
    ensures CaselessSame(t, name) ==> t != "" && Upper(t[0]) == c && |t| == n
  {
  }

  predicate InterfaceName(t: string) {
    CaselessSame(t, "PrivateKey") || CaselessSame(t, "ListenPort") || CaselessSame(t, "Address")
    || CaselessSame(t, "DNS") || CaselessSame(t, "MTU") || CaselessSame(t, "FwMark") || CaselessSame(t, "Table")
    || CaselessSame(t, "PreUp") || CaselessSame(t, "PostUp") || CaselessSame(t, "PreDown")
    || CaselessSame(t, "PostDown") || CaselessSame(t, "SaveConfig")
  }

  predicate PeerName(t: string) {
    CaselessSame(t, "PublicKey") || CaselessSame(t, "PresharedKey") || CaselessSame(t, "AllowedIPs")
    || CaselessSame(t, "Endpoint") || CaselessSame(t, "PersistentKeepalive")
  }

  /** A key is shown as a field exactly when its name belongs to the section. */
  lemma KeyNames(t: string, section: Field)
    ensures KeyKind(t, PeerSection) == HighlightField <==> PeerName(t)
    ensures KeyKind(t, InterfaceSection) == HighlightField <==> InterfaceName(t)
    ensures section !in [InterfaceSection, PeerSection] ==> KeyKind(t, section) != HighlightField
  {
    FieldNames(t);
    hide GetField, CaselessSame;
  }

  /** A header is shown as a section, and opens it, exactly when it is one of the two. */
  lemma HeaderNames(t: string)
    ensures SectionType(t) == InterfaceSection <==> CaselessSame(t, "[Interface]")
    ensures SectionType(t) == PeerSection <==> CaselessSame(t, "[Peer]")
    ensures SectionType(t) in [InterfaceSection, PeerSection, Invalid]
  {
  }

  //
  // The grammar
  //

  /** Values between commas; a value may be missing, but not the last. */
  predicate ListOf(v: string, good: string -> bool)
    decreases |v|
  {
    var n := Find(v, ',');
    var piece := Trim(v[..n]);
    if n == |v| then piece != "" && good(piece) else (piece == "" || good(piece)) && ListOf(v[n + 1..], good)
  }

  predicate Server(v: string) {
    IPv4(v) || IPv6(v) || Hostname(v)
  }

  predicate InterfacePair(name: string, v: string) {
    (CaselessSame(name, "PrivateKey") && Key(v))
    || (CaselessSame(name, "ListenPort") && Number(v, false, 0, 65535))
    || (CaselessSame(name, "Address") && ListOf(v, Network))
    || (CaselessSame(name, "DNS") && ListOf(v, Server))
    || (CaselessSame(name, "MTU") && Number(v, false, 576, 65535))
    || (CaselessSame(name, "FwMark") && (v == "off" || Number(v, true, 0, 4294967295)))
    || (CaselessSame(name, "Table") && |v| < 512)
    || CaselessSame(name, "PreUp") || CaselessSame(name, "PostUp")
    || CaselessSame(name, "PreDown") || CaselessSame(name, "PostDown")
    || (CaselessSame(name, "SaveConfig") && v in ["true", "false"])
  }

  predicate PeerPair(name: string, v: string) {
    (CaselessSame(name, "PublicKey") && Key(v))
    || (CaselessSame(name, "PresharedKey") && Key(v))
    || (CaselessSame(name, "AllowedIPs") && ListOf(v, Network))
    || (CaselessSame(name, "Endpoint") && EndpointText(v))
    || (CaselessSame(name, "PersistentKeepalive") && (v == "off" || Number(v, false, 0, 65535)))
  }

  /** A name and a value that belong into a section. */
  predicate Pair(name: string, v: string, section: Field) {
    v != "" && match section
               case InterfaceSection => InterfacePair(name, v)
               case PeerSection => PeerPair(name, v)
               case _ => false
  }

  predicate Header(t: string) {
    CaselessSame(t, "[Interface]") || CaselessSame(t, "[Peer]")
  }

  /** The text before and behind position q is a pair. */
  predicate PairAt(b: string, q: nat, section: Field) {
    q < |b| && Pair(Trim(b[..q]), Trim(b[q + 1..]), section)
  }

  /** A line without its comment: blank, a header, or a name, an equals sign and a value. */
  predicate GoodBody(b: string, section: Field) {
    Trim(b) == "" || Header(Trim(b)) || PairAt(b, Find(b, '='), section)
  }

  function Body(line: string): string {
    line[..Find(line, '#')]
  }

  /** The section a line leaves. */
  function Opened(b: string, section: Field): Field {
    if CaselessSame(Trim(b), "[Interface]") then InterfaceSection
    else if CaselessSame(Trim(b), "[Peer]") then PeerSection
    else section
  }

  predicate GoodText(t: string, section: Field)
    decreases |t|
  {
    var n := Find(t, '\n');
    var b := Body(t[..n]);
    GoodBody(b, section) && (n < |t| ==> GoodText(t[n + 1..], Opened(b, section)))
  }

  //
  // No error exactly for what the grammar allows
  //

  predicate Flawless(spans: seq<Span>) {
    forall k :: 0 <= k < |spans| ==> spans[k].kind != HighlightError
  }

  lemma FlawlessParts(a: seq<Span>, b: seq<Span>)
    ensures Flawless(a + b) <==> Flawless(a) && Flawless(b)
  {
    assert forall k :: 0 <= k < |a| ==> (a + b)[k] == a[k];
    assert forall k :: 0 <= k < |b| ==> (a + b)[|a| + k] == b[k];
  }

  lemma FlawlessOne(kind: Kind, at: nat, len: nat)
    ensures Flawless(One(kind, at, len)) <==> kind != HighlightError || len == 0
  {
    assert len > 0 ==> One(kind, at, len)[0].kind == kind;
  }

  lemma FlawlessThree(kinds: (Kind, Kind), at: nat, k: nat, len: nat)
    requires k < len && kinds.0 != HighlightError && kinds.1 != HighlightError
    ensures Flawless(Three(kinds, at, k, len))
  {
    hide Flawless, One;
    var a, b, c := One(kinds.0, at, k), One(HighlightDelimiter, at + k, 1), One(kinds.1, at + k + 1, len - k - 1);
    FlawlessOne(kinds.0, at, k);
    FlawlessOne(HighlightDelimiter, at + k, 1);
    FlawlessOne(kinds.1, at + k + 1, len - k - 1);
    FlawlessParts(a, b);
    FlawlessParts(a + b, c);
  }

  /** What a single value of a list may be. */
  function Member(field: Field): string -> bool {
    if field == DNS then Server else Network
  }

  lemma PieceExactly(v: string, at: nat, field: Field)
    requires field in [Address, DNS, AllowedIPs]
    ensures Flawless(PieceSpans(v, at, field)) <==> v == "" || Member(field)(v)
  {
    hide Flawless, IPv4, IPv6, Hostname, Network, Three, One, Find;
    FlawlessOne(HighlightIP, at, |v|);
    FlawlessOne(HighlightHost, at, |v|);
    FlawlessOne(HighlightError, at, |v|);
    var k := Find(v, '/');
    if k < |v| {
      FlawlessThree((HighlightIP, HighlightCidr), at, k, |v|);
    }
  }

  lemma {:induction false} ListExactly(v: string, at: nat, field: Field)
    requires field in [Address, DNS, AllowedIPs] && Trim(v) != ""
    ensures Flawless(ListSpans(v, at, field)) <==> ListOf(v, Member(field))
    decreases |v|
  {
    hide Flawless, PieceSpans, ListSpans, ListOf, Trim, First, Find, CommaKind, Member;
    var n := Find(v, ',');
    var piece := v[..n];
    PieceExactly(Trim(piece), at + First(piece), field);
    if n == |v| {
      assert piece == v;
      ListLast(v, at, field);
      ListOfOne(v, Member(field));
    } else {
      var rest := v[n + 1..];
      assert v == piece + "," + rest;
      ListCut(piece, rest, at, field);
      ListOfMore(piece, rest, Member(field));
      var spans, comma := PieceSpans(Trim(piece), at + First(piece), field), [Span(CommaKind(rest), at + n, 1)];
      FlawlessParts(spans, comma);
      FlawlessParts(spans + comma, ListSpans(rest, at + n + 1, field));
      CommaExactly(rest, at + n);
      if Trim(rest) == "" {
        BlankList(rest, Member(field));
      } else {
        ListExactly(rest, at + n + 1, field);
      }
    }
  }

  lemma {:induction false} ListOfOne(v: string, good: string -> bool)
    requires ',' !in v
    ensures ListOf(v, good) <==> Trim(v) != "" && good(Trim(v))
  {
    hide Trim;
    FindIs(v, ',', |v|);
    assert v[..|v|] == v;
  }

  lemma {:induction false} ListOfMore(piece: string, rest: string, good: string -> bool)
    requires ',' !in piece
    ensures ListOf(piece + "," + rest, good) <==> (Trim(piece) == "" || good(Trim(piece))) && ListOf(rest, good)
  {
    hide Trim, Find;
    var v, n := piece + "," + rest, |piece|;
    FindCut(piece, ',', rest);
    assert v[..n] == piece && v[n + 1..] == rest;
  }

  lemma CommaExactly(rest: string, at: nat)
    ensures Flawless([Span(CommaKind(rest), at, 1)]) <==> Trim(rest) != ""
  {
    hide Trim;
    assert [Span(CommaKind(rest), at, 1)][0].kind == CommaKind(rest);
  }

  lemma {:induction false} BlankList(v: string, good: string -> bool)
    requires Trim(v) == ""
    ensures !ListOf(v, good)
  {
    assert forall i :: 0 <= i < |v| ==> Blank(v[i]);
    FindIs(v, ',', |v|);
    assert v[..|v|] == v;
  }

  /** The values of a field. */
  predicate Takes(field: Field, v: string) {
    match field
    case PrivateKey | PublicKey | PresharedKey => Key(v)
    case ListenPort => Number(v, false, 0, 65535)
    case Address | AllowedIPs => ListOf(v, Network)
    case DNS => ListOf(v, Server)
    case MTU => Number(v, false, 576, 65535)
    case FwMark => v == "off" || Number(v, true, 0, 4294967295)
    case Table => |v| < 512
    case PreUp | PostUp | PreDown | PostDown => true
    case SaveConfig => v in ["true", "false"]
    case Endpoint => EndpointText(v)
    case PersistentKeepalive => v == "off" || Number(v, false, 0, 65535)
    case _ => false
  }

  lemma SingleExactly(field: Field, v: string)
    requires v != "" && field !in [Address, DNS, AllowedIPs, Endpoint]
    ensures ValueKind(field, v) != HighlightError <==> Takes(field, v)
  {
    hide Key, ListOf, EndpointText, AllDecimal, AllHexadecimal, Decimal, Hexadecimal, HexPrefix;
    if field == Table {
      assert TableText(v) <==> |v| < 512;
    }
  }

  lemma EndpointExactly(v: string, at: nat)
    requires v != ""
    ensures Flawless(EndpointSpans(v, at)) <==> EndpointText(v)
  {
    hide EndpointText, FindLast, Flawless, One, Three;
    FlawlessOne(HighlightError, at, |v|);
    if EndpointText(v) {
      EndpointHasColon(v);
      FlawlessThree((HighlightHost, HighlightPort), at, FindLast(v, ':'), |v|);
    }
  }

  lemma FieldExactly(v: string, at: nat, field: Field)
    requires v != "" && Trim(v) != ""
    ensures Flawless(FieldSpans(v, at, field)) <==> Takes(field, v)
  {
    hide Key, ListOf, EndpointText, Number, EndpointSpans, ListSpans, Flawless, Trim, ValueKind, One;
    match field
    case Endpoint => EndpointExactly(v, at);
    case Address | DNS | AllowedIPs => ListExactly(v, at, field);
    case _ =>
      SingleExactly(field, v);
      FlawlessOne(ValueKind(field, v), at, |v|);
  }

  lemma TrimmedStays(w: string)
    requires Trim(w) != ""
    ensures Trim(Trim(w)) != ""
  {
    var v := Trim(w);
    assert v[0] == w[First(w)];
  }

  lemma ValueExactly(w: string, at: nat, field: Field)
    requires at > 0
    ensures Flawless(ValueSpans(w, at, field)) <==> Trim(w) != "" && Takes(field, Trim(w))
  {
    hide Takes, FieldSpans, Trim, First;
    if Trim(w) == "" {
      assert ValueSpans(w, at, field)[0].kind == HighlightError;
    } else {
      TrimmedStays(w);
      FieldExactly(Trim(w), at + First(w), field);
      FlawlessParts([Span(HighlightDelimiter, at - 1, 1)], FieldSpans(Trim(w), at + First(w), field));
    }
  }

  lemma InterfaceByField(name: string, v: string)
    ensures InterfacePair(name, v) <==> InterfaceName(name) && Takes(GetField(name), v)
  {
    hide GetField, CaselessSame, Key, ListOf, EndpointText, Number;
    FieldNames(name);
  }

  lemma PeerByField(name: string, v: string)
    ensures PeerPair(name, v) <==> PeerName(name) && Takes(GetField(name), v)
  {
    hide GetField, CaselessSame, Key, ListOf, EndpointText, Number;
    FieldNames(name);
  }

  /** The grammar by names agrees with that by fields. */
  lemma PairByField(name: string, v: string, section: Field)
    ensures Pair(name, v, section)
       <==> v != "" && KeyKind(name, section) == HighlightField && Takes(GetField(name), v)
  {
    hide InterfacePair, PeerPair, InterfaceName, PeerName, Takes, GetField, KeyKind;
    KeyNames(name, section);
    InterfaceByField(name, v);
    PeerByField(name, v);
  }

  /** Names begin with a letter. */
  lemma NameLetter(name: string, v: string, section: Field)
    requires Pair(name, v, section)
    ensures name != "" && 'A' <= Upper(name[0]) <= 'Z'
  {
    hide CaselessSame, Key, ListOf, EndpointText, Number;
    Told(name, "PrivateKey", 'P', 10);
    Told(name, "ListenPort", 'L', 10);
    Told(name, "Address", 'A', 7);
    Told(name, "DNS", 'D', 3);
    Told(name, "MTU", 'M', 3);
    Told(name, "PublicKey", 'P', 9);
    Told(name, "PresharedKey", 'P', 12);
    Told(name, "AllowedIPs", 'A', 10);
    Told(name, "Endpoint", 'E', 8);
    Told(name, "PersistentKeepalive", 'P', 19);
    Told(name, "FwMark", 'F', 6);
    Told(name, "Table", 'T', 5);
    Told(name, "PreUp", 'P', 5);
    Told(name, "PostUp", 'P', 6);
    Told(name, "PreDown", 'P', 7);
    Told(name, "PostDown", 'P', 8);
    Told(name, "SaveConfig", 'S', 10);
  }

  lemma {:induction false} PairExactly(b: string, q: nat, at: nat, section: Field)
    requires First(b) < q < |b|
    ensures Flawless(PairSpans(b, q, at, section)) <==> Pair(Trim(b[..q]), Trim(b[q + 1..]), section)
  {
    hide Flawless, Trim, First, KeyKind, GetField, ValueSpans, Pair, One, Takes;
    var key, w := Trim(b[..q]), b[q + 1..];
    KeyThere(b, q);
    PairByField(key, Trim(w), section);
    ValueExactly(w, at + q + 1, GetField(key));
    FlawlessOne(KeyKind(key, section), at + First(b), |key|);
    KeyKinds(key, section);
    FlawlessParts(One(KeyKind(key, section), at + First(b), |key|), ValueSpans(w, at + q + 1, GetField(key)));
  }

  lemma KeyKinds(key: string, section: Field)
    ensures KeyKind(key, section) in [HighlightField, HighlightError]
  {
  }

  /** A name before position q begins where the line does. */
  lemma {:induction false} KeyThere(b: string, q: nat)
    requires First(b) < q <= |b|
    ensures Trim(b[..q]) != "" && Trim(b[..q])[0] == b[First(b)]
  {
    var a, f := b[..q], First(b);
    assert forall i :: 0 <= i < f ==> a[i] == b[i];
    assert a[f] == b[f];
    assert First(a) == f;
  }

  /** The equals sign that ends a name is the first of the line. */
  lemma {:induction false} FirstEquals(b: string)
    requires First(b) < |b| && b[First(b)] != '='
    ensures Find(b, '=') == Equals(b, First(b))
  {
    var f := First(b);
    var rest := b[f + 1..];
    var k := Find(rest, '=');
    hide First, Find;
    forall i | 0 <= i < f + 1 + k
      ensures b[i] != '='
    {
      if i < f {
        assert Blank(b[i]);
      } else if i > f {
        assert b[i] == rest[i - f - 1];
      }
    }
    FindIs(b, '=', f + 1 + k);
  }

  /** No pair begins with this character. */
  lemma NoName(name: string, v: string, section: Field)
    requires name == "" || name[0] == '[' || name[0] == '='
    ensures !Pair(name, v, section)
  {
    if Pair(name, v, section) {
      NameLetter(name, v, section);
    }
  }

  lemma {:induction false} TrimmedFirst(b: string)
    requires Trim(b) != ""
    ensures First(b) < |b| && Trim(b)[0] == b[First(b)]
  {
  }

  lemma {:induction false} HeaderBracket(b: string)
    requires Header(Trim(b))
    ensures First(b) < |b| && b[First(b)] == '['
  {
    hide Trim, First;
    var t := Trim(b);
    Told(t, "[Interface]", '[', 11);
    Told(t, "[Peer]", '[', 6);
    hide CaselessSame;
    TrimmedFirst(b);
  }

  lemma FlawlessSpan(span: Span)
    ensures Flawless([span]) <==> span.kind != HighlightError
  {
    assert [span][0] == span;
  }

  lemma {:induction false} NoPairAt(b: string, q: nat, section: Field)
    requires First(b) < |b| && First(b) <= q && (b[First(b)] == '[' || b[First(b)] == '=')
    ensures !PairAt(b, q, section)
  {
    hide Pair, Trim, First;
    if q < |b| {
      if First(b) == q {
        AllBlank(b[..q]);
      } else {
        KeyThere(b, q);
      }
      NoName(Trim(b[..q]), Trim(b[q + 1..]), section);
    }
  }

  lemma {:induction false} EqualsBehindBlanks(b: string)
    requires First(b) < |b|
    ensures First(b) <= Find(b, '=')
  {
    hide First, Find;
    var q := Find(b, '=');
    assert q < First(b) ==> Blank(b[q]);
  }

  lemma {:induction false} HeaderExactly(b: string, at: nat, section: Field)
    requires First(b) < |b| && b[First(b)] == '['
    ensures Flawless(BodySpans(b, at, section)) <==> GoodBody(b, section)
  {
    hide Flawless, SectionType, CaselessSame, PairAt, Find, First, Stop, Trim;
    HeaderNames(Trim(b));
    EqualsBehindBlanks(b);
    NoPairAt(b, Find(b, '='), section);
    NotBlank(b);
    FlawlessSpan(Span(HighlightError, at + First(b), Stop(b) - First(b)));
    FlawlessSpan(Span(HighlightSection, at + First(b), Stop(b) - First(b)));
  }

  lemma {:induction false} NotBlank(b: string)
    requires First(b) < |b|
    ensures Trim(b) != ""
  {
  }

  /** The equals sign that the scanner takes is the first one, or there is no pair. */
  lemma {:induction false} SamePair(b: string, section: Field)
    requires First(b) < |b|
    ensures PairAt(b, Equals(b, First(b)), section) <==> PairAt(b, Find(b, '='), section)
  {
    hide PairAt, Equals, First, Find;
    if b[First(b)] == '=' {
      EqualsBehindBlanks(b);
      NoPairAt(b, Find(b, '='), section);
      NoPairAt(b, Equals(b, First(b)), section);
    } else {
      FirstEquals(b);
    }
  }

  lemma {:induction false} NamedSpans(b: string, at: nat, section: Field)
    requires First(b) < |b| && b[First(b)] != '['
    ensures Flawless(BodySpans(b, at, section)) <==> PairAt(b, Equals(b, First(b)), section)
  {
    hide Flawless, Pair, PairSpans, Equals, First, Stop, Trim;
    var f, q := First(b), Equals(b, First(b));
    FlawlessSpan(Span(HighlightError, at + f, Stop(b) - f));
    if q < |b| {
      PairExactly(b, q, at, section);
    }
  }

  /** A line that begins with neither a bracket nor a blank. */
  lemma {:induction false} NamedExactly(b: string, at: nat, section: Field)
    requires First(b) < |b| && b[First(b)] != '['
    ensures Flawless(BodySpans(b, at, section)) <==> GoodBody(b, section)
  {
    hide Flawless, Header, PairAt, BodySpans, Find, Equals, First, Trim;
    NotBlank(b);
    if Header(Trim(b)) {
      HeaderBracket(b);
    }
    SamePair(b, section);
    NamedSpans(b, at, section);
  }

  lemma AllBlank(t: string)
    requires forall i :: 0 <= i < |t| ==> Blank(t[i])
    ensures Trim(t) == ""
  {
  }

  lemma BodyExactly(b: string, at: nat, section: Field)
    ensures Flawless(BodySpans(b, at, section)) <==> GoodBody(b, section)
  {
    var f := First(b);
    if f == |b| {
      assert BodySpans(b, at, section) == [] && Trim(b) == "";
    } else if b[f] == '[' {
      HeaderExactly(b, at, section);
    } else {
      NamedExactly(b, at, section);
    }
  }

  lemma LineExactly(line: string, at: nat, section: Field)
    ensures Flawless(LineSpans(line, at, section)) <==> GoodBody(Body(line), section)
  {
    hide GoodBody, BodySpans, Flawless, One, Find;
    var h := Find(line, '#');
    BodyExactly(line[..h], at, section);
    FlawlessOne(HighlightComment, at + h, |line| - h);
    FlawlessParts(BodySpans(line[..h], at, section), One(HighlightComment, at + h, |line| - h));
  }

  /** Behind a line of the grammar the section is the one its header opens. */
  lemma SectionOpened(b: string, section: Field)
    requires GoodBody(b, section)
    ensures SectionAfter(b, section) == Opened(b, section)
  {
    hide First, Trim, PairAt, Find, CaselessSame, SectionType;
    HeaderNames(Trim(b));
    if Header(Trim(b)) {
      HeaderBracket(b);
    } else if First(b) < |b| && b[First(b)] == '[' {
      NotBlank(b);
      EqualsBehindBlanks(b);
      NoPairAt(b, Find(b, '='), section);
    }
  }

  /** Highlighting shows an error exactly where a text departs from the grammar. */
  lemma {:induction false} TextExactly(t: string, at: nat, section: Field)
    ensures Flawless(Spans(t, at, section)) <==> GoodText(t, section)
    decreases |t|
  {
    hide Flawless, LineSpans, GoodBody, SectionAfterLine, Opened, Find, Body;
    var n := Find(t, '\n');
    var line := t[..n];
    var b := Body(line);
    LineExactly(line, at, section);
    if n == |t| {
      assert LineSpans(line, at, section) + [] == LineSpans(line, at, section);
    } else {
      var rest, after := t[n + 1..], SectionAfterLine(line, section);
      FlawlessParts(LineSpans(line, at, section), Spans(rest, at + n + 1, after));
      TextExactly(rest, at + n + 1, after);
      if GoodBody(b, section) {
        LineOpened(line, section);
      }
    }
  }

  lemma LineOpened(line: string, section: Field)
    requires GoodBody(Body(line), section)
    ensures SectionAfterLine(line, section) == Opened(Body(line), section)
  {
    SectionOpened(Body(line), section);
  }

  //
  // How good values are shown
  //

  /** One kind for each name with a single value. */
  lemma KindsByName(t: string, v: string, section: Field)
    requires Pair(t, v, section)
    ensures CaselessSame(t, "PrivateKey") ==> ValueKind(GetField(t), v) == HighlightPrivateKey
    ensures CaselessSame(t, "PublicKey") ==> ValueKind(GetField(t), v) == HighlightPublicKey
    ensures CaselessSame(t, "PresharedKey") ==> ValueKind(GetField(t), v) == HighlightPresharedKey
    ensures CaselessSame(t, "ListenPort") ==> ValueKind(GetField(t), v) == HighlightPort
    ensures CaselessSame(t, "MTU") ==> ValueKind(GetField(t), v) == HighlightMTU
    ensures CaselessSame(t, "FwMark") ==> ValueKind(GetField(t), v) == HighlightFwMark
    ensures CaselessSame(t, "Table") ==> ValueKind(GetField(t), v) == HighlightTable
    ensures CaselessSame(t, "SaveConfig") ==> ValueKind(GetField(t), v) == HighlightSaveConfig
    ensures CaselessSame(t, "PersistentKeepalive") ==> ValueKind(GetField(t), v) == HighlightKeepalive
    ensures CaselessSame(t, "PreUp") || CaselessSame(t, "PostUp") ==> ValueKind(GetField(t), v) == HighlightCmd
    ensures CaselessSame(t, "PreDown") || CaselessSame(t, "PostDown") ==> ValueKind(GetField(t), v) == HighlightCmd
  {
    hide CaselessSame, GetField, Pair, Number, Key, ListOf, EndpointText, KeyKind;
    FieldNames(t);
    PairByField(t, v, section);
  }

  /** An endpoint is shown as host, colon and port, cut at the last colon. */
  lemma EndpointShown(v: string, at: nat, k: nat)
    requires EndpointText(v) && 0 < k < |v| - 1 && v[k] == ':' && forall i :: k < i < |v| ==> v[i] != ':'
    ensures FieldSpans(v, at, Endpoint)
         == [Span(HighlightHost, at, k), Span(HighlightDelimiter, at + k, 1),
             Span(HighlightPort, at + k + 1, |v| - k - 1)]
  {
    hide EndpointText, FindLast;
    EndpointHasColon(v);
    assert FindLast(v, ':') == k;
  }

  /** A prefix length is shown apart from its address. */
  lemma NetworkShown(v: string, at: nat, k: nat, field: Field)
    requires field in [Address, AllowedIPs] && Network(v) && 0 < k < |v| - 1 && v[k] == '/'
    ensures PieceSpans(v, at, field)
         == [Span(HighlightIP, at, k), Span(HighlightDelimiter, at + k, 1),
             Span(HighlightCidr, at + k + 1, |v| - k - 1)]
  {
    hide IPv4, IPv6, Find;
    SlashOnce(v, k);
  }

  /** Without a prefix length an address is shown as a whole, and so is a name server. */
  lemma AddressShown(v: string, at: nat)
    ensures IPv4(v) || IPv6(v) ==> PieceSpans(v, at, DNS) == One(HighlightIP, at, |v|)
    ensures Hostname(v) && !IPv4(v) && !IPv6(v) ==> PieceSpans(v, at, DNS) == One(HighlightHost, at, |v|)
    ensures Network(v) && '/' !in v ==> PieceSpans(v, at, Address) == One(HighlightIP, at, |v|)
    ensures PieceSpans(v, at, AllowedIPs) == PieceSpans(v, at, Address)
  {
    hide IPv4, IPv6, Hostname, Network, One;
    if '/' !in v {
      FindIs(v, '/', |v|);
    }
  }

  /** Between two values of a list the comma is shown as a delimiter. */
  lemma {:induction false} CommaShown(piece: string, rest: string, at: nat, field: Field)
    requires ',' !in piece && Trim(rest) != ""
    ensures ListSpans(piece + "," + rest, at, field)
         == PieceSpans(Trim(piece), at + First(piece), field)
            + [Span(HighlightDelimiter, at + |piece|, 1)] + ListSpans(rest, at + |piece| + 1, field)
  {
    hide ListSpans, PieceSpans, Trim, First;
    ListCut(piece, rest, at, field);
  }

  /** A network has one slash: none of its parts can hold another. */
  lemma {:induction false} SlashOnce(v: string, k: nat)
    requires Network(v) && k < |v| && v[k] == '/'
    ensures Find(v, '/') == k
  {
    hide IPv4, IPv6;
    var c := Find(v, '/');
    forall i | c < i < |v|
      ensures IsDecimal(v[i])
    {
      assert v[i] == v[c + 1..][i - c - 1];
    }
  }

  /** A line that opens a section, and one that opens none although it begins like one. */
  lemma {:induction false} HeaderShown(b: string, at: nat, section: Field)
    requires First(b) < |b| && b[First(b)] == '['
    ensures BodySpans(b, at, section)
         == [Span(if Header(Trim(b)) then HighlightSection else HighlightError, at + First(b), |Trim(b)|)]
    ensures SectionAfter(b, section)
         == if CaselessSame(Trim(b), "[Interface]") then InterfaceSection
            else if CaselessSame(Trim(b), "[Peer]") then PeerSection else Invalid
  {
    hide CaselessSame, SectionType, First, Stop;
    HeaderNames(Trim(b));
  }

  /** A pair is shown as a field, a delimiter and its value. */
  lemma PairShown(b: string, at: nat, section: Field)
    requires First(b) < |b| && b[First(b)] != '[' && PairAt(b, Find(b, '='), section)
    ensures var q := Find(b, '=');
      var key, w := Trim(b[..q]), b[q + 1..];
      BodySpans(b, at, section)
      == [Span(HighlightField, at + First(b), |key|), Span(HighlightDelimiter, at + q, 1)]
         + FieldSpans(Trim(w), at + q + 1 + First(w), GetField(key))
  {
    hide Pair, First, Trim, GetField, FieldSpans, Find, Equals, PairSpans;
    FirstNotEquals(b, section);
    FirstEquals(b);
    PairSpansShown(b, Find(b, '='), at, section);
  }

  lemma OneSpan(kind: Kind, at: nat, len: nat)
    requires len > 0
    ensures One(kind, at, len) == [Span(kind, at, len)]
  {
  }

  lemma PairSpansShown(b: string, q: nat, at: nat, section: Field)
    requires PairAt(b, q, section)
    ensures var key, w := Trim(b[..q]), b[q + 1..];
      PairSpans(b, q, at, section)
      == [Span(HighlightField, at + First(b), |key|), Span(HighlightDelimiter, at + q, 1)]
         + FieldSpans(Trim(w), at + q + 1 + First(w), GetField(key))
  {
    hide Pair, First, Trim, GetField, KeyKind, FieldSpans, Takes, One;
    var key, w := Trim(b[..q]), b[q + 1..];
    PairByField(key, Trim(w), section);
    NameLetter(key, Trim(w), section);
    OneSpan(KeyKind(key, section), at + First(b), |key|);
    Associate([Span(HighlightField, at + First(b), |key|)], [Span(HighlightDelimiter, at + q, 1)],
              FieldSpans(Trim(w), at + q + 1 + First(w), GetField(key)));
  }

  lemma {:induction false} FirstNotEquals(b: string, section: Field)
    requires First(b) < |b| && PairAt(b, Find(b, '='), section)
    ensures b[First(b)] != '='
  {
    hide PairAt, First, Find;
    EqualsBehindBlanks(b);
    if b[First(b)] == '=' {
      NoPairAt(b, Find(b, '='), section);
    }
  }

  /** A comment is shown as one, to the end of its line. */
  lemma CommentShown(line: string, at: nat, section: Field, h: nat)
    requires h < |line| && line[h] == '#' && '#' !in line[..h]
    ensures LineSpans(line, at, section)
         == BodySpans(line[..h], at, section) + [Span(HighlightComment, at + h, |line| - h)]
  {
    hide BodySpans;
    assert forall i :: 0 <= i < h ==> line[i] == line[..h][i];
    FindIs(line, '#', h);
  }
}
