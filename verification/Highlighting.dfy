/** What highlighting a configuration means, line by line: each line is cut at
    its comment, trimmed, and is a section, a key and a value, or an error. */
module Highlighting {
  import opened ConfigText

  datatype Kind =
    | HighlightSection | HighlightField | HighlightPrivateKey | HighlightPublicKey | HighlightPresharedKey
    | HighlightIP | HighlightCidr | HighlightHost | HighlightPort | HighlightMTU | HighlightKeepalive
    | HighlightComment | HighlightDelimiter | HighlightTable | HighlightFwMark | HighlightSaveConfig | HighlightCmd
    | HighlightError | HighlightEnd

  datatype Span = Span(kind: Kind, start: nat, len: nat)

  datatype Field =
    | InterfaceSection | PrivateKey | ListenPort | Address | DNS | MTU | FwMark | Table
    | PreUp | PostUp | PreDown | PostDown | SaveConfig
    | PeerSection | PublicKey | PresharedKey | AllowedIPs | Endpoint | PersistentKeepalive
    | Invalid

  //
  // Names
  //

  function Upper(c: char): char {
    if 'a' <= c <= 'z' then (c as int - 32) as char else c
  }

  /** is_caseless_same */
  predicate CaselessSame(t: string, name: string) {
    |t| == |name| && forall i :: 0 <= i < |t| ==> Upper(t[i]) == Upper(name[i])
  }

  function SectionForField(f: Field): Field {
    match f
    case PrivateKey | ListenPort | Address | DNS | MTU | FwMark | Table => InterfaceSection
    case PreUp | PostUp | PreDown | PostDown | SaveConfig => InterfaceSection
    case PublicKey | PresharedKey | AllowedIPs | Endpoint | PersistentKeepalive => PeerSection
    case _ => Invalid
  }

  function GetField(t: string): Field {
    if CaselessSame(t, "PrivateKey") then PrivateKey
    else if CaselessSame(t, "ListenPort") then ListenPort
    else if CaselessSame(t, "Address") then Address
    else if CaselessSame(t, "DNS") then DNS
    else if CaselessSame(t, "MTU") then MTU
    else if CaselessSame(t, "PublicKey") then PublicKey
    else if CaselessSame(t, "PresharedKey") then PresharedKey
    else if CaselessSame(t, "AllowedIPs") then AllowedIPs
    else if CaselessSame(t, "Endpoint") then Endpoint
    else if CaselessSame(t, "PersistentKeepalive") then PersistentKeepalive
    else if CaselessSame(t, "FwMark") then FwMark
    else if CaselessSame(t, "Table") then Table
    else if CaselessSame(t, "PreUp") then PreUp
    else if CaselessSame(t, "PostUp") then PostUp
    else if CaselessSame(t, "PreDown") then PreDown
    else if CaselessSame(t, "PostDown") then PostDown
    else if CaselessSame(t, "SaveConfig") then SaveConfig
    else Invalid
  }

  function SectionType(t: string): Field {
    if CaselessSame(t, "[Peer]") then PeerSection
    else if CaselessSame(t, "[Interface]") then InterfaceSection
    else Invalid
  }

  //
  // Trimming
  //

  predicate Blank(c: char) {
    c == ' ' || c == '\t'
  }

  /** Position of the first character that is not blank, or the end. */
  function First(t: string): (k: nat)
    ensures k <= |t| && (k < |t| ==> !Blank(t[k])) && forall i :: 0 <= i < k ==> Blank(t[i])
  {
    if t == "" || !Blank(t[0]) then 0 else 1 + First(t[1..])
  }

  /** Position behind the last character that is not blank. */
  function Stop(t: string): (k: nat)
    ensures k <= |t| && (k > 0 ==> !Blank(t[k - 1])) && forall i :: k <= i < |t| ==> Blank(t[i])
    ensures First(t) < |t| ==> First(t) < k
    ensures First(t) == |t| ==> k == 0
  {
    if t == "" then 0 else if !Blank(t[|t| - 1]) then |t| else Stop(t[..|t| - 1])
  }

  function Trim(t: string): string {
    if First(t) == |t| then "" else t[First(t)..Stop(t)]
  }

  //
  // Spans
  //

  /** append_highlight_span: no empty spans. */
  function One(kind: Kind, at: nat, len: nat): seq<Span> {
    if len == 0 then [] else [Span(kind, at, len)]
  }

  /** Spans for the text before position k, the character there, and the text behind. */
  function Three(kinds: (Kind, Kind), at: nat, k: nat, len: nat): seq<Span>
    requires k < len
  {
    One(kinds.0, at, k) + One(HighlightDelimiter, at + k, 1) + One(kinds.1, at + k + 1, len - k - 1)
  }

  /** A single value and how it is shown if it is a good one. */
  function ValueKind(field: Field, v: string): Kind {
    match field
    case PrivateKey => if Key(v) then HighlightPrivateKey else HighlightError
    case PublicKey => if Key(v) then HighlightPublicKey else HighlightError
    case PresharedKey => if Key(v) then HighlightPresharedKey else HighlightError
    case MTU => if Number(v, false, 576, 65535) then HighlightMTU else HighlightError
    case SaveConfig => if v in ["true", "false"] then HighlightSaveConfig else HighlightError
    case FwMark => if FwMarkText(v) then HighlightFwMark else HighlightError
    case Table => if TableText(v) then HighlightTable else HighlightError
    case PreUp | PostUp | PreDown | PostDown => if v != "" then HighlightCmd else HighlightError
    case ListenPort => if Port(v) then HighlightPort else HighlightError
    case PersistentKeepalive => if Keepalive(v) then HighlightKeepalive else HighlightError
    case _ => HighlightError
  }

  /** Position of the last c, or the end. */
  function FindLast(t: string, c: char): (k: nat)
    ensures k <= |t| && (k < |t| ==> t[k] == c) && (c in t ==> k < |t|)
    ensures forall i :: k < i < |t| ==> t[i] != c
  {
    if t == "" then 0
    else if t[|t| - 1] == c then |t| - 1
    else
      var k := FindLast(t[..|t| - 1], c);
      if k == |t| - 1 then |t| else k
  }

  lemma {:induction false} EndpointHasColon(v: string)
    requires EndpointText(v)
    ensures ':' in v && FindLast(v, ':') < |v|
  {
    var r, c := Find(v, ']'), Find(v, ':');
    if v[0] == '[' {
      assert v[r + 1] == ':';
    } else {
      assert v[c] == ':';
    }
  }

  function EndpointSpans(v: string, at: nat): seq<Span> {
    if EndpointText(v) then
      EndpointHasColon(v);
      Three((HighlightHost, HighlightPort), at, FindLast(v, ':'), |v|)
    else One(HighlightError, at, |v|)
  }

  /** One of several values: a name server, or an address with a prefix length. */
  function PieceSpans(v: string, at: nat, field: Field): seq<Span> {
    if field == DNS then
      One(if IPv4(v) || IPv6(v) then HighlightIP else if Hostname(v) then HighlightHost else HighlightError, at, |v|)
    else if field in [Address, AllowedIPs] && Network(v) then
      var k := Find(v, '/');
      if k == |v| then One(HighlightIP, at, |v|) else Three((HighlightIP, HighlightCidr), at, k, |v|)
    else One(HighlightError, at, |v|)
  }

  lemma NoPiece(at: nat, field: Field)
    ensures PieceSpans("", at, field) == []
  {
  }

  /** Values between commas; a comma that nothing follows is an error. */
  function ListSpans(v: string, at: nat, field: Field): seq<Span>
    decreases |v|
  {
    var n := Find(v, ',');
    var piece := PieceSpans(Trim(v[..n]), at + First(v[..n]), field);
    if n == |v| then piece
    else
      piece + [Span(CommaKind(v[n + 1..]), at + n, 1)] + ListSpans(v[n + 1..], at + n + 1, field)
  }

  function FieldSpans(v: string, at: nat, field: Field): seq<Span> {
    match field
    case Endpoint => EndpointSpans(v, at)
    case Address | DNS | AllowedIPs => ListSpans(v, at, field)
    case _ => One(ValueKind(field, v), at, |v|)
  }

  /** What stands behind the equals sign, which is at position at - 1. */
  function ValueSpans(w: string, at: nat, field: Field): seq<Span>
    requires at > 0
  {
    if Trim(w) == "" then [Span(HighlightError, at - 1, 1)]
    else [Span(HighlightDelimiter, at - 1, 1)] + FieldSpans(Trim(w), at + First(w), field)
  }

  /** Position of the equals sign of a line that begins at f, or the end. */
  function Equals(b: string, f: nat): (q: nat)
    requires f < |b|
    ensures f < q <= |b| && (q < |b| ==> b[q] == '=')
  {
    f + 1 + Find(b[f + 1..], '=')
  }

  function KeyKind(key: string, section: Field): Kind {
    if SectionForField(GetField(key)) == Invalid || SectionForField(GetField(key)) != section then HighlightError
    else HighlightField
  }

  /** A key and a value with an equals sign at position q between them. */
  function PairSpans(b: string, q: nat, at: nat, section: Field): seq<Span>
    requires q < |b|
  {
    var key := Trim(b[..q]);
    One(KeyKind(key, section), at + First(b), |key|) + ValueSpans(b[q + 1..], at + q + 1, GetField(key))
  }

  /** A line without its comment. */
  function BodySpans(b: string, at: nat, section: Field): seq<Span> {
    var f := First(b);
    if f == |b| then []
    else if b[f] == '[' then
      [Span(if SectionType(Trim(b)) == Invalid then HighlightError else HighlightSection, at + f, Stop(b) - f)]
    else
      var q := Equals(b, f);
      if q == |b| then [Span(HighlightError, at + f, Stop(b) - f)] else PairSpans(b, q, at, section)
  }

  function SectionAfter(b: string, section: Field): Field {
    var f := First(b);
    if f < |b| && b[f] == '[' then SectionType(Trim(b)) else section
  }

  function LineSpans(line: string, at: nat, section: Field): seq<Span> {
    var h := Find(line, '#');
    BodySpans(line[..h], at, section) + One(HighlightComment, at + h, |line| - h)
  }

  function SectionAfterLine(line: string, section: Field): Field {
    SectionAfter(line[..Find(line, '#')], section)
  }

  /** The spans of a text that stands at position at, in a given section. */
  function Spans(t: string, at: nat, section: Field): seq<Span>
    decreases |t|
  {
    var n := Find(t, '\n');
    LineSpans(t[..n], at, section)
    + if n == |t| then [] else Spans(t[n + 1..], at + n + 1, SectionAfterLine(t[..n], section))
  }

  function SectionAfterText(t: string, section: Field): Field
    decreases |t|
  {
    var n := Find(t, '\n');
    var after := SectionAfterLine(t[..n], section);
    if n == |t| then after else SectionAfterText(t[n + 1..], after)
  }

  //
  // Line by line
  //

  lemma {:induction false} SpansLast(t: string, at: nat, section: Field)
    requires '\n' !in t
    ensures Spans(t, at, section) == LineSpans(t, at, section)
    ensures SectionAfterText(t, section) == SectionAfterLine(t, section)
  {
    hide LineSpans, SectionAfterLine;
    FindIs(t, '\n', |t|);
    assert t[..|t|] == t;
  }

  lemma {:induction false} FindCut(line: string, c: char, rest: string)
    requires c !in line
    ensures Find(line + [c] + rest, c) == |line|
  {
    FindIs(line + [c] + rest, c, |line|);
  }

  lemma {:induction false} SpansCut(line: string, rest: string, at: nat, section: Field)
    requires '\n' !in line
    ensures var t, after := line + "\n" + rest, SectionAfterLine(line, section);
      Spans(t, at, section) == LineSpans(line, at, section) + Spans(rest, at + |line| + 1, after)
      && SectionAfterText(t, section) == SectionAfterText(rest, after)
  {
    hide LineSpans, SectionAfterLine, Find;
    var t, n := line + "\n" + rest, |line|;
    FindCut(line, '\n', rest);
    assert t[..n] == line && t[n + 1..] == rest;
  }

  /** Text and a line break before more text: only the section is carried over. */
  lemma {:induction false} Compositional(a: string, b: string, at: nat, section: Field)
    ensures Spans(a + "\n" + b, at, section)
         == Spans(a, at, section) + Spans(b, at + |a| + 1, SectionAfterText(a, section))
    decreases |a|
  {
    hide Spans, SectionAfterText, LineSpans, SectionAfterLine, Find;
    var n := Find(a, '\n');
    if n == |a| {
      SpansLast(a, at, section);
      SpansCut(a, b, at, section);
    } else {
      var line, rest := a[..n], a[n + 1..];
      assert a == line + "\n" + rest;
      SpansCut(line, rest, at, section);
      assert a + "\n" + b == line + "\n" + (rest + "\n" + b);
      SpansCut(line, rest + "\n" + b, at, section);
      Compositional(rest, b, at + n + 1, SectionAfterLine(line, section));
    }
  }

  function Shifted(spans: seq<Span>, d: nat): (r: seq<Span>)
    ensures |r| == |spans|
  {
    seq(|spans|, k requires 0 <= k < |spans| => spans[k].(start := spans[k].start + d))
  }

  lemma ShiftedConcat(a: seq<Span>, b: seq<Span>, d: nat)
    ensures Shifted(a + b, d) == Shifted(a, d) + Shifted(b, d)
  {
  }

  /** Moving a text moves its spans. */
  lemma {:induction false} SpansShift(t: string, at: nat, d: nat, section: Field)
    ensures Spans(t, at + d, section) == Shifted(Spans(t, at, section), d)
    decreases |t|
  {
    hide Spans, LineSpans, SectionAfterLine, Find, Shifted;
    var n := Find(t, '\n');
    if n == |t| {
      SpansLast(t, at, section);
      SpansLast(t, at + d, section);
      LineShift(t, at, d, section);
    } else {
      var line, rest, after := t[..n], t[n + 1..], SectionAfterLine(t[..n], section);
      assert t == line + "\n" + rest;
      SpansCut(line, rest, at, section);
      SpansCut(line, rest, at + d, section);
      LineShift(line, at, d, section);
      SpansShift(rest, at + n + 1, d, after);
      ShiftedConcat(LineSpans(line, at, section), Spans(rest, at + n + 1, after), d);
    }
  }

  lemma LineShift(line: string, at: nat, d: nat, section: Field)
    ensures LineSpans(line, at + d, section) == Shifted(LineSpans(line, at, section), d)
  {
    hide BodySpans, Find;
    var h := Find(line, '#');
    BodyShift(line[..h], at, d, section);
    ShiftedConcat(BodySpans(line[..h], at, section), One(HighlightComment, at + h, |line| - h), d);
  }

  lemma BodyShift(b: string, at: nat, d: nat, section: Field)
    ensures BodySpans(b, at + d, section) == Shifted(BodySpans(b, at, section), d)
  {
    hide PairSpans, SectionType, First, Stop, Trim, Equals;
    var f := First(b);
    if f < |b| && b[f] != '[' && Equals(b, f) < |b| {
      PairShift(b, Equals(b, f), at, d, section);
    }
  }

  lemma PairShift(b: string, q: nat, at: nat, d: nat, section: Field)
    requires q < |b|
    ensures PairSpans(b, q, at + d, section) == Shifted(PairSpans(b, q, at, section), d)
  {
    hide ValueSpans, KeyKind, GetField, First, Trim;
    var key, w := Trim(b[..q]), b[q + 1..];
    ValueShift(w, at + q + 1, d, GetField(key));
    assert at + d + q + 1 == at + q + 1 + d;
    ShiftedConcat(One(KeyKind(key, section), at + First(b), |key|), ValueSpans(w, at + q + 1, GetField(key)), d);
  }

  lemma ShiftedOne(kind: Kind, at: nat, d: nat)
    ensures Shifted([Span(kind, at, 1)], d) == [Span(kind, at + d, 1)]
  {
  }

  lemma ValueShift(w: string, at: nat, d: nat, field: Field)
    requires at > 0
    ensures ValueSpans(w, at + d, field) == Shifted(ValueSpans(w, at, field), d)
  {
    hide FieldSpans, Trim, First, Shifted;
    var v, f := Trim(w), First(w);
    var to := at + f;
    FieldShift(v, to, d, field);
    ShiftedConcat([Span(HighlightDelimiter, at - 1, 1)], FieldSpans(v, to, field), d);
    ShiftedOne(HighlightDelimiter, at - 1, d);
    ShiftedOne(HighlightError, at - 1, d);
    assert at + d + f == to + d && at + d - 1 == at - 1 + d;
    hide One;
    if v == "" {
      assert ValueSpans(w, at, field) == [Span(HighlightError, at - 1, 1)];
    } else {
      assert ValueSpans(w, at, field) == [Span(HighlightDelimiter, at - 1, 1)] + FieldSpans(v, to, field);
    }
  }

  lemma FieldShift(v: string, at: nat, d: nat, field: Field)
    ensures FieldSpans(v, at + d, field) == Shifted(FieldSpans(v, at, field), d)
  {
    hide EndpointSpans, ValueKind, ListSpans, Shifted;
    match field
    case Endpoint => EndpointShift(v, at, d);
    case Address | DNS | AllowedIPs => ListShift(v, at, d, field);
    case _ => OneShift(ValueKind(field, v), at, |v|, d);
  }

  lemma OneShift(kind: Kind, at: nat, len: nat, d: nat)
    ensures One(kind, at + d, len) == Shifted(One(kind, at, len), d)
  {
  }

  lemma EndpointShift(v: string, at: nat, d: nat)
    ensures EndpointSpans(v, at + d) == Shifted(EndpointSpans(v, at), d)
  {
    hide EndpointText, FindLast;
    if EndpointText(v) {
      EndpointHasColon(v);
    }
  }

  lemma {:induction false} ListLast(v: string, at: nat, field: Field)
    requires ',' !in v
    ensures ListSpans(v, at, field) == PieceSpans(Trim(v), at + First(v), field)
  {
    hide PieceSpans, Trim;
    FindIs(v, ',', |v|);
    assert v[..|v|] == v;
  }

  /** How a comma before this text is shown. */
  function CommaKind(rest: string): Kind {
    if Trim(rest) == "" then HighlightError else HighlightDelimiter
  }

  lemma {:induction false} ListCut(piece: string, rest: string, at: nat, field: Field)
    requires ',' !in piece
    ensures ListSpans(piece + "," + rest, at, field)
         == PieceSpans(Trim(piece), at + First(piece), field)
            + [Span(CommaKind(rest), at + |piece|, 1)] + ListSpans(rest, at + |piece| + 1, field)
  {
    hide PieceSpans, Trim, First, CommaKind, Find;
    var v, n := piece + "," + rest, |piece|;
    FindCut(piece, ',', rest);
    assert v[..n] == piece && v[n + 1..] == rest;
  }

  lemma {:induction false} ListShift(v: string, at: nat, d: nat, field: Field)
    ensures ListSpans(v, at + d, field) == Shifted(ListSpans(v, at, field), d)
    decreases |v|
  {
    hide PieceSpans, ListSpans, Trim, First, Find;
    var n := Find(v, ',');
    if n == |v| {
      ListLast(v, at, field);
      ListLast(v, at + d, field);
      PieceShift(Trim(v), at + First(v), d, field);
    } else {
      var piece, rest := v[..n], v[n + 1..];
      assert v == piece + "," + rest;
      ListCut(piece, rest, at, field);
      ListCut(piece, rest, at + d, field);
      var spans, comma := PieceSpans(Trim(piece), at + First(piece), field), [Span(CommaKind(rest), at + n, 1)];
      PieceShift(Trim(piece), at + First(piece), d, field);
      ListShift(rest, at + n + 1, d, field);
      ShiftedConcat(spans + comma, ListSpans(rest, at + n + 1, field), d);
      ShiftedConcat(spans, comma, d);
    }
  }

  lemma PieceShift(v: string, at: nat, d: nat, field: Field)
    ensures PieceSpans(v, at + d, field) == Shifted(PieceSpans(v, at, field), d)
  {
    hide IPv4, IPv6, Network, Hostname, Find;
  }
}
