/** The scanner of highlighter.c: one pass over the characters, proved to emit
    exactly the spans that the line-by-line definition gives. */
module Highlighter {
  import opened Words
  import opened ConfigText
  import opened Addresses
  import opened Validators
  import opened Highlighting

  /** highlight_span_array */
  class SpanArray {
    var spans: seq<Span>

    constructor ()
      ensures spans == []
    {
      spans := [];
    }

    /** append_highlight_span */
    method Append(start: nat, len: nat, kind: Kind)
      modifies this
      ensures spans == old(spans) + One(kind, start, len)
    {
      if len == 0 {
        return;
      }
      spans := spans + [Span(kind, start, len)];
    }

    /** The spans on both sides of a delimiter, and the delimiter. */
    method AppendThree(start: nat, k: nat, len: nat, kinds: (Kind, Kind))
      requires k < len
      modifies this
      ensures spans == old(spans) + Three(kinds, start, k, len)
    {
      Append(start, k, kinds.0);
      Append(start + k, 1, HighlightDelimiter);
      Append(start + k + 1, len - k - 1, kinds.1);
    }
  }

  //
  // Values
  //

  /** highlight_multivalue_value */
  method HighlightPiece(ret: SpanArray, s: string, at: nat, len: nat, field: Field)
    requires at + len <= |s| && At(s, at + len) != ':'
    modifies ret
    ensures ret.spans == old(ret.spans) + PieceSpans(s[at..at + len], at, field)
  {
    hide IPv4, IPv6, Network, Hostname, Find;
    ghost var v := s[at..at + len];
    if field == DNS {
      var ip := IsValidIpv4(s, at, len);
      if !ip {
        ip := IsValidIpv6(s, at, len);
      }
      if ip {
        ret.Append(at, len, HighlightIP);
        return;
      }
      var host := IsValidHostname(s, at, len);
      ret.Append(at, len, if host then HighlightHost else HighlightError);
    } else if field in [Address, AllowedIPs] {
      var network := IsValidNetwork(s, at, len);
      if !network {
        ret.Append(at, len, HighlightError);
        return;
      }
      var slash := 0;
      while slash < len && s[at + slash] != '/'
        invariant 0 <= slash <= len && forall k :: 0 <= k < slash ==> v[k] != '/'
      {
        slash := slash + 1;
      }
      FindIs(v, '/', slash);
      if slash == len {
        ret.Append(at, len, HighlightIP);
      } else {
        ret.AppendThree(at, slash, len, (HighlightIP, HighlightCidr));
      }
    } else {
      ret.Append(at, len, HighlightError);
    }
  }

  lemma {:induction false} FirstIs(t: string, k: nat)
    requires k <= |t| && (k < |t| ==> !Blank(t[k])) && forall i :: 0 <= i < k ==> Blank(t[i])
    ensures First(t) == k
  {
    hide First;
    var f := First(t);
    assert f < |t| ==> !Blank(t[f]);
  }

  lemma {:induction false} FirstSnoc(b: string, c: char)
    ensures First(b + [c]) == if First(b) < |b| then First(b) else if Blank(c) then |b| + 1 else |b|
  {
    hide First;
    var t, f := b + [c], First(b);
    FirstIs(t, if f < |b| then f else if Blank(c) then |b| + 1 else |b|);
  }

  lemma {:induction false} StopSnoc(b: string, c: char)
    ensures Stop(b + [c]) == if Blank(c) then Stop(b) else |b| + 1
  {
    assert (b + [c])[..|b|] == b;
  }

  /** Where the loop over a list of values stands at position i of v: behind the
      comma before position n, with the spans so far, of which the one of that
      comma may still change. */
  ghost predicate InList(v: string, at: nat, field: Field, n: nat, i: nat, done: seq<Span>) {
    n <= i <= |v| && ',' !in v[n..i]
    && if n == 0 then done == []
       else
         done != [] && done[|done| - 1] == Span(HighlightDelimiter, at + n - 1, 1)
         && ListSpans(v, at, field) == WithLast(done, CommaKind(v[n..])) + ListSpans(v[n..], at + n, field)
  }

  function WithLast(spans: seq<Span>, kind: Kind): seq<Span>
    requires spans != []
  {
    spans[|spans| - 1 := spans[|spans| - 1].(kind := kind)]
  }

  lemma ListNext(v: string, at: nat, field: Field, n: nat, i: nat, done: seq<Span>)
    requires InList(v, at, field, n, i, done) && i < |v| && v[i] != ','
    ensures InList(v, at, field, n, i + 1, done)
  {
    hide ListSpans, CommaKind;
    assert v[n..i + 1] == v[n..i] + [v[i]];
  }

  /** Something that is not blank follows the last comma. */
  lemma NotLastComma(v: string, n: nat, i: nat)
    requires n <= i < |v| && !Blank(v[i])
    ensures CommaKind(v[n..]) == HighlightDelimiter
  {
    var w := v[n..];
    assert w[i - n] == v[i];
    assert First(w) <= i - n;
  }

  lemma Unchanged(done: seq<Span>)
    requires done != [] && done[|done| - 1].kind == HighlightDelimiter
    ensures WithLast(done, HighlightDelimiter) == done
  {
  }

  /** A comma at position i. */
  lemma ListComma(v: string, at: nat, field: Field, n: nat, i: nat, done: seq<Span>)
    requires InList(v, at, field, n, i, done) && i < |v| && v[i] == ','
    ensures InList(v, at, field, i + 1, i + 1,
                   done + PieceSpans(Trim(v[n..i]), at + n + First(v[n..i]), field)
                   + [Span(HighlightDelimiter, at + i, 1)])
  {
    hide ListSpans, CommaKind, PieceSpans, Trim, First;
    var piece, rest := v[n..i], v[i + 1..];
    var spans := PieceSpans(Trim(piece), at + n + First(piece), field);
    assert v[n..] == piece + "," + rest;
    ListCut(piece, rest, at + n, field);
    NotLastComma(v, n, i);
    var all := done + spans + [Span(HighlightDelimiter, at + i, 1)];
    assert WithLast(all, CommaKind(rest)) == done + spans + [Span(CommaKind(rest), at + i, 1)];
    if n == 0 {
      assert v[0..] == v && done + spans == spans;
    } else {
      Unchanged(done);
      Regroup(done, spans, [Span(CommaKind(rest), at + i, 1)], ListSpans(rest, at + i + 1, field));
    }
  }

  lemma Regroup(a: seq<Span>, b: seq<Span>, c: seq<Span>, d: seq<Span>)
    ensures a + (b + c + d) == a + b + c + d
  {
  }

  /** The end of the list: a value, or nothing behind the last comma. */
  lemma {:induction false} ListEnd(v: string, at: nat, field: Field, n: nat, done: seq<Span>)
    requires InList(v, at, field, n, |v|, done)
    ensures var w := v[n..];
      ListSpans(v, at, field)
      == (if n > 0 && First(w) == |w| then WithLast(done, HighlightError) else done)
         + PieceSpans(Trim(w), at + n + First(w), field)
  {
    hide ListSpans, PieceSpans, First;
    var w := v[n..];
    assert v[n..|v|] == w;
    ListLast(w, at + n, field);
    if n == 0 {
      assert w == v;
      assert done + PieceSpans(Trim(w), at + n + First(w), field) == PieceSpans(Trim(w), at + n + First(w), field);
    } else if First(w) < |w| {
      NotLastComma(v, n, n + First(w));
      Unchanged(done);
    }
  }

  /** The span under way: text w from position at on, without leading blanks, and
      the length up to its last character that is not blank. */
  ghost predicate Under(w: string, at: nat, start: nat, len: nat, lastSpace: nat) {
    start == at + First(w) && len == |w| - First(w)
    && lastSpace == if First(w) == |w| then 0 else Stop(w) - First(w)
  }

  lemma {:induction false} UnderIs(w: string, at: nat, start: nat, len: nat, lastSpace: nat)
    requires Under(w, at, start, len, lastSpace)
    ensures start == at + First(w) && (lastSpace == 0 <==> First(w) == |w|)
  {
    hide First, Stop;
  }

  /** A character is added to it. */
  lemma UnderNext(w: string, at: nat, start: nat, len: nat, lastSpace: nat, c: char)
    requires Under(w, at, start, len, lastSpace)
    ensures len == 0 ==> start == at + |w|
    ensures Blank(c) && len == 0 ==> Under(w + [c], at, start + 1, 0, lastSpace)
    ensures Blank(c) && len > 0 ==> Under(w + [c], at, start, len + 1, lastSpace)
    ensures !Blank(c) ==> Under(w + [c], at, start, len + 1, len + 1)
  {
    hide First, Stop;
    FirstSnoc(w, c);
    StopSnoc(w, c);
  }

  /** When the text ends, the span holds it trimmed. */
  lemma UnderTrim(s: string, from: nat, to: nat, start: nat, len: nat, lastSpace: nat)
    requires from <= to <= |s| && Under(s[from..to], from, start, len, lastSpace)
    ensures start + lastSpace <= to && s[start..start + lastSpace] == Trim(s[from..to])
    ensures start + lastSpace < to ==> Blank(s[start + lastSpace])
    ensures len > 0 <==> lastSpace > 0
    ensures lastSpace > 0 ==> !Blank(s[start])
  {
    hide First, Stop;
    var w := s[from..to];
    var f, e := First(w), Stop(w);
    if f < |w| {
      Slice(s, from, to - from, f, e);
      assert w[f] == s[start];
      assert e < |w| ==> w[e] == s[from + e];
    }
  }

  lemma ListStart(v: string, at: nat, field: Field)
    ensures InList(v, at, field, 0, 0, []) && Under("", at, at, 0, 0)
  {
  }

  lemma UnderStart(at: nat)
    ensures Under("", at, at, 0, 0)
  {
  }

  /** highlight_multivalue */
  method HighlightList(ret: SpanArray, s: string, at: nat, len: nat, field: Field)
    requires at + len <= |s| && At(s, at + len) != ':' && len > 0 && !Blank(s[at])
    modifies ret
    ensures ret.spans == old(ret.spans) + ListSpans(s[at..at + len], at, field)
  {
    hide ListSpans, PieceSpans, First, Stop, Trim, CommaKind, InList, Under;
    ghost var v, done: seq<Span> := s[at..at + len], [];
    ghost var n: nat := 0;
    var start, cur, lastSpace := at, 0, 0;
    ListStart(v, at, field);
    for i := 0 to len
      invariant InList(v, at, field, n, i, done) && n <= i && ret.spans == old(ret.spans) + done
      invariant Under(v[n..i], at + n, start, cur, lastSpace)
    {
      if s[at + i] == ',' {
        ListComma(v, at, field, n, i, done);
        HighlightComma(ret, s, at, len, field, start, cur, lastSpace, i, n);
        ghost var piece := PieceSpans(Trim(v[n..i]), at + n + First(v[n..i]), field);
        Regroup(old(ret.spans), done, piece, [Span(HighlightDelimiter, at + i, 1)]);
        done, n := done + piece + [Span(HighlightDelimiter, at + i, 1)], i + 1;
        start, cur, lastSpace := at + i + 1, 0, 0;
        UnderStart(at + n);
        assert v[n..i + 1] == "";
      } else {
        ListNext(v, at, field, n, i, done);
        assert v[n..i + 1] == v[n..i] + [v[i]];
        UnderNext(v[n..i], at + n, start, cur, lastSpace, v[i]);
        if s[at + i] == ' ' || s[at + i] == '\t' {
          if at + i == start && cur == 0 {
            start := start + 1;
          } else {
            cur := cur + 1;
          }
        } else {
          cur := cur + 1;
          lastSpace := cur;
        }
      }
    }
    FinishList(ret, s, at, len, field, start, cur, lastSpace, n, old(ret.spans), done);
  }

  /** A comma: the value before it, and the comma itself. */
  method HighlightComma(ret: SpanArray, s: string, at: nat, len: nat, field: Field,
                        start: nat, cur: nat, lastSpace: nat, i: nat, ghost n: nat)
    requires at + len <= |s| && n <= i < len && s[at + i] == ','
    requires Under(s[at..at + len][n..i], at + n, start, cur, lastSpace)
    modifies ret
    ensures var w := s[at..at + len][n..i];
      ret.spans
      == old(ret.spans) + PieceSpans(Trim(w), at + n + First(w), field) + [Span(HighlightDelimiter, at + i, 1)]
  {
    hide PieceSpans, First, Stop, Trim;
    Slice(s, at, len, n, i);
    UnderTrim(s, at + n, at + i, start, cur, lastSpace);
    HighlightPiece(ret, s, start, lastSpace, field);
    ret.Append(at + i, 1, HighlightDelimiter);
  }

  /** The value behind the last comma; without one that comma is an error. */
  method FinishList(ret: SpanArray, s: string, at: nat, len: nat, field: Field,
                    start: nat, cur: nat, lastSpace: nat, ghost n: nat, ghost before: seq<Span>, ghost done: seq<Span>)
    requires at + len <= |s| && At(s, at + len) != ':' && len > 0 && !Blank(s[at]) && n <= len
    requires InList(s[at..at + len], at, field, n, len, done) && ret.spans == before + done
    requires Under(s[at..at + len][n..len], at + n, start, cur, lastSpace)
    modifies ret
    ensures ret.spans == before + ListSpans(s[at..at + len], at, field)
  {
    hide PieceSpans, ListSpans, First, Stop, CommaKind, InList, Under, Trim;
    ghost var v := s[at..at + len];
    ghost var w := v[n..];
    assert v[n..len] == w;
    Slice(s, at, len, n, len);
    UnderTrim(s, at + n, at + len, start, cur, lastSpace);
    UnderIs(w, at + n, start, cur, lastSpace);
    ListEnd(v, at, field, n, done);
    if lastSpace > 0 {
      HighlightPiece(ret, s, start, lastSpace, field);
      Associate(before, done, PieceSpans(Trim(w), start, field));
    } else {
      assert n > 0;
      NoPiece(start, field);
      LastIsComma(v, at, field, n, done);
      LastReplaced(before, done);
      if ret.spans[|ret.spans| - 1].kind == HighlightDelimiter {
        ret.spans := ret.spans[|ret.spans| - 1 := ret.spans[|ret.spans| - 1].(kind := HighlightError)];
      }
    }
  }

  lemma LastIsComma(v: string, at: nat, field: Field, n: nat, done: seq<Span>)
    requires InList(v, at, field, n, |v|, done) && n > 0
    ensures done != [] && done[|done| - 1].kind == HighlightDelimiter
  {
  }

  lemma LastReplaced(before: seq<Span>, done: seq<Span>)
    requires done != [] && done[|done| - 1].kind == HighlightDelimiter
    ensures var all := before + done;
      all[|all| - 1].kind == HighlightDelimiter
      && all[|all| - 1 := all[|all| - 1].(kind := HighlightError)] == before + (WithLast(done, HighlightError) + [])
  {
  }

  method IsValidValue(s: string, at: nat, len: nat, field: Field) returns (kind: Kind)
    requires at + len <= |s| && field !in [Endpoint, Address, DNS, AllowedIPs]
    ensures kind == ValueKind(field, s[at..at + len])
  {
    hide Key, Number;
    var v, ok := s[at..at + len], false;
    match field
    case PrivateKey =>
      ok := IsValidKey(s, at, len);
      kind := if ok then HighlightPrivateKey else HighlightError;
    case PublicKey =>
      ok := IsValidKey(s, at, len);
      kind := if ok then HighlightPublicKey else HighlightError;
    case PresharedKey =>
      ok := IsValidKey(s, at, len);
      kind := if ok then HighlightPresharedKey else HighlightError;
    case MTU =>
      ok := IsValidUint(s, at, len, false, 576, 65535);
      kind := if ok then HighlightMTU else HighlightError;
    case SaveConfig =>
      kind := if v == "true" || v == "false" then HighlightSaveConfig else HighlightError;
    case FwMark =>
      ok := IsValidUint(s, at, len, true, 0, 4294967295);
      kind := if v == "off" || ok then HighlightFwMark else HighlightError;
    case Table =>
      ok := IsValidUint(s, at, len, false, 0, 4294967295);
      kind := if v == "auto" || v == "off" || len < 512 || ok then HighlightTable else HighlightError;
    case PreUp | PostUp | PreDown | PostDown =>
      kind := if len != 0 then HighlightCmd else HighlightError;
    case ListenPort =>
      ok := IsValidPort(s, at, len);
      kind := if ok then HighlightPort else HighlightError;
    case PersistentKeepalive =>
      ok := IsValidUint(s, at, len, false, 0, 65535);
      kind := if v == "off" || ok then HighlightKeepalive else HighlightError;
    case _ =>
      kind := HighlightError;
  }

  lemma {:induction false} FindLastIs(t: string, c: char, k: nat)
    requires k < |t| && t[k] == c && forall i :: k < i < |t| ==> t[i] != c
    ensures FindLast(t, c) == k
  {
    hide FindLast;
    assert c in t;
  }

  method LastColon(s: string, at: nat, len: nat) returns (colon: nat)
    requires at + len <= |s| && ':' in s[at..at + len]
    ensures colon == FindLast(s[at..at + len], ':') < len
  {
    ghost var v := s[at..at + len];
    colon := len;
    while true
      invariant 0 < colon <= len && ':' in v[..colon] && forall i :: colon <= i < len ==> v[i] != ':'
      decreases colon
    {
      colon := colon - 1;
      if s[at + colon] == ':' {
        break;
      }
      assert v[..colon + 1] == v[..colon] + [v[colon]];
    }
    FindLastIs(v, ':', colon);
  }

  method HighlightEndpoint(ret: SpanArray, s: string, at: nat, len: nat)
    requires at + len <= |s|
    modifies ret
    ensures ret.spans == old(ret.spans) + EndpointSpans(s[at..at + len], at)
  {
    hide EndpointText, FindLast;
    var ok := IsValidEndpoint(s, at, len);
    if !ok {
      ret.Append(at, len, HighlightError);
      return;
    }
    EndpointHasColon(s[at..at + len]);
    var colon := LastColon(s, at, len);
    ret.AppendThree(at, colon, len, (HighlightHost, HighlightPort));
  }

  /** highlight_value */
  method HighlightValue(ret: SpanArray, s: string, at: nat, len: nat, field: Field)
    requires at + len <= |s| && At(s, at + len) != ':' && len > 0 && !Blank(s[at])
    modifies ret
    ensures ret.spans == old(ret.spans) + FieldSpans(s[at..at + len], at, field)
  {
    hide EndpointSpans, ListSpans, ValueKind;
    match field
    case Endpoint =>
      HighlightEndpoint(ret, s, at, len);
    case Address | DNS | AllowedIPs =>
      HighlightList(ret, s, at, len, field);
    case _ =>
      var kind := IsValidValue(s, at, len, field);
      ret.Append(at, len, kind);
  }

  //
  // The scanner
  //

  datatype State = OnNone | OnKey | OnValue | OnComment | OnSection

  /** The variables of the scanner. */
  datatype Scan = Scan(state: State, start: nat, len: nat, lastSpace: nat, equals: nat, section: Field, field: Field)

  predicate Plain(b: string) {
    '#' !in b
  }

  /** Before any character that counts. */
  ghost predicate Nothing(c: Scan, b: string, at: nat) {
    First(b) == |b| && Under(b, at, c.start, c.len, c.lastSpace)
  }

  /** In the first word of a line. */
  ghost predicate Word(c: Scan, b: string, at: nat) {
    Plain(b) && First(b) < |b| && Under(b, at, c.start, c.len, c.lastSpace)
    && if c.state == OnSection then b[First(b)] == '[' else b[First(b)] != '[' && Equals(b, First(b)) == |b|
  }

  /** Behind the equals sign, which is at position q. */
  ghost predicate Value(c: Scan, b: string, at: nat, q: nat) {
    First(b) < q < |b| && Plain(b) && b[First(b)] != '[' && Equals(b, First(b)) == q
    && c.equals == at + q && c.field == GetField(Trim(b[..q]))
    && Under(b[q + 1..], at + q + 1, c.start, c.len, if c.len == 0 then 0 else c.lastSpace)
  }

  /** Where the scanner is in the line whose characters b it has read, which began
      at position at in a given section: its variables, and the spans of this line
      that it has already emitted. */
  ghost predicate InLine(c: Scan, b: string, at: nat, section: Field, more: seq<Span>) {
    match c.state
    case OnNone => Nothing(c, b, at) && c.section == section && more == []
    case OnKey => Word(c, b, at) && c.section == section && more == []
    case OnSection => Word(c, b, at) && c.section == section && more == []
    case OnValue =>
      First(b) < |b| && Value(c, b, at, Equals(b, First(b))) && c.section == section
      && var key := Trim(b[..Equals(b, First(b))]);
         more == One(KeyKind(key, section), at + First(b), |key|)
    case OnComment =>
      var h := Find(b, '#');
      h < |b| && c.start == at + h && c.len == |b| - h
      && c.section == SectionAfter(b[..h], section) && more == BodySpans(b[..h], at, section)
  }

  /** The whole line read so far, emitted behind the spans before it. */
  ghost predicate Flushed(spans: seq<Span>, before: seq<Span>, comment: bool, b: string, at: nat, section: Field,
                          after: Field) {
    if comment then
      spans == before + LineSpans(b, at, section) && after == SectionAfterLine(b, section)
    else
      Plain(b) && spans == before + BodySpans(b, at, section) && after == SectionAfter(b, section)
  }

  /** Lines 585 to 602: what is left of the line so far. */
  method Flush(ret: SpanArray, s: string, c: Scan, i: nat, ghost at: nat, ghost section: Field,
               ghost before: seq<Span>, ghost more: seq<Span>)
    returns (after: Field)
    requires at <= i <= |s| && InLine(c, s[at..i], at, section, more) && ret.spans == before + more && At(s, i) != ':'
    modifies ret
    ensures Flushed(ret.spans, before, c.state == OnComment, s[at..i], at, section, after)
  {
    hide *;
    ghost var b := s[at..i];
    match c.state
    case OnNone =>
      BlankLine(c, b, at, section, before, more);
      after := c.section;
    case OnKey =>
      after := FlushWord(ret, s, c, i, at, section, before, more);
    case OnSection =>
      after := FlushWord(ret, s, c, i, at, section, before, more);
    case OnValue =>
      ValueInLine(c, b, at, section, more);
      FlushValue(ret, s, c, i, at, Equals(b, First(b)));
      PairBody(c, b, at, section, before, more);
      after := c.section;
    case OnComment =>
      ret.Append(c.start, c.len, HighlightComment);
      CommentLine(c, b, at, section, before, more);
      after := c.section;
  }

  /** A line that is a section or an error. */
  method FlushWord(ret: SpanArray, s: string, c: Scan, i: nat, ghost at: nat, ghost section: Field,
                   ghost before: seq<Span>, ghost more: seq<Span>)
    returns (after: Field)
    requires at <= i <= |s| && InLine(c, s[at..i], at, section, more) && ret.spans == before + more
    requires c.state in [OnKey, OnSection]
    modifies ret
    ensures Flushed(ret.spans, before, false, s[at..i], at, section, after)
  {
    hide First, Stop, Trim, Equals, Plain, SectionType, BodySpans, SectionAfter, Under;
    ghost var b := s[at..i];
    UnderTrim(s, at, i, c.start, c.len, c.lastSpace);
    WordBody(c, b, at, section);
    after := c.section;
    if c.state == OnKey {
      ret.Append(c.start, c.lastSpace, HighlightError);
    } else {
      after := SectionType(s[c.start..c.start + c.lastSpace]);
      ret.Append(c.start, c.lastSpace, if after == Invalid then HighlightError else HighlightSection);
    }
    assert before + more == before;
  }

  lemma BlankLine(c: Scan, b: string, at: nat, section: Field, before: seq<Span>, more: seq<Span>)
    requires c.state == OnNone && InLine(c, b, at, section, more)
    ensures Flushed(before + more, before, false, b, at, section, c.section)
  {
    hide First, BodySpans, SectionAfter;
    BlankBody(b, at, section);
  }

  lemma {:induction false} ValueInLine(c: Scan, b: string, at: nat, section: Field, more: seq<Span>)
    requires c.state == OnValue && InLine(c, b, at, section, more)
    ensures First(b) < |b| && Value(c, b, at, Equals(b, First(b))) && Equals(b, First(b)) < |b|
  {
    hide First, Equals, Trim, Under;
  }

  lemma {:induction false} BlankBody(b: string, at: nat, section: Field)
    requires First(b) == |b|
    ensures BodySpans(b, at, section) == [] && SectionAfter(b, section) == section && Plain(b)
  {
    hide First;
  }

  lemma WordBody(c: Scan, b: string, at: nat, section: Field)
    requires Word(c, b, at) && c.state in [OnKey, OnSection]
    ensures c.lastSpace > 0
    ensures c.state == OnKey ==>
      BodySpans(b, at, section) == [Span(HighlightError, c.start, c.lastSpace)] && SectionAfter(b, section) == section
    ensures c.state == OnSection ==>
      SectionAfter(b, section) == SectionType(Trim(b))
      && BodySpans(b, at, section)
         == [Span(if SectionType(Trim(b)) == Invalid then HighlightError else HighlightSection, c.start, c.lastSpace)]
  {
    hide First, Stop, Trim, Equals, SectionType, PairSpans, Plain;
  }

  lemma {:induction false} BodyIsPair(b: string, at: nat, section: Field)
    requires First(b) < |b| && b[First(b)] != '[' && Equals(b, First(b)) < |b|
    ensures BodySpans(b, at, section) == PairSpans(b, Equals(b, First(b)), at, section)
    ensures SectionAfter(b, section) == section
  {
    hide First, Stop, Trim, Equals, SectionType, PairSpans;
  }

  /** What the scanner knows behind an equals sign. */
  lemma {:induction false} PairFacts(c: Scan, b: string, at: nat, section: Field, more: seq<Span>)
    requires c.state == OnValue && InLine(c, b, at, section, more) && First(b) < |b|
    ensures Plain(b) && b[First(b)] != '[' && Equals(b, First(b)) < |b| && c.section == section
    ensures var key := Trim(b[..Equals(b, First(b))]);
      c.field == GetField(key) && more == One(KeyKind(key, section), at + First(b), |key|)
  {
    hide First, Trim, Equals, KeyKind, GetField, Plain, Under, One;
  }

  lemma {:induction false} PairIs(b: string, q: nat, at: nat, section: Field, more: seq<Span>, v: seq<Span>)
    requires q < |b|
    requires var key := Trim(b[..q]);
      more == One(KeyKind(key, section), at + First(b), |key|) && v == ValueSpans(b[q + 1..], at + q + 1, GetField(key))
    ensures PairSpans(b, q, at, section) == more + v
  {
    hide First, Trim, KeyKind, GetField, One, ValueSpans;
  }

  lemma {:induction false} PairBody(c: Scan, b: string, at: nat, section: Field, before: seq<Span>, more: seq<Span>)
    requires c.state == OnValue && InLine(c, b, at, section, more) && First(b) < |b| && Equals(b, First(b)) < |b|
    ensures var q := Equals(b, First(b));
      Flushed(before + more + ValueSpans(b[q + 1..], at + q + 1, c.field), before, false, b, at, section, c.section)
  {
    hide First, Equals, ValueSpans, Plain, SectionAfter, BodySpans, InLine, PairSpans, Trim, KeyKind, GetField, One;
    var q := Equals(b, First(b));
    var v := ValueSpans(b[q + 1..], at + q + 1, c.field);
    PairFacts(c, b, at, section, more);
    BodyIsPair(b, at, section);
    PairIs(b, q, at, section, more, v);
    Associate(before, more, v);
  }

  lemma CommentLine(c: Scan, b: string, at: nat, section: Field, before: seq<Span>, more: seq<Span>)
    requires c.state == OnComment && InLine(c, b, at, section, more)
    ensures Flushed(before + more + One(HighlightComment, c.start, c.len), before, true, b, at, section, c.section)
  {
    hide Find, BodySpans, SectionAfter, One;
    var d := One(HighlightComment, c.start, c.len);
    assert LineSpans(b, at, section) == more + d;
    assert before + more + d == before + (more + d);
  }

  /** The equals sign and the value. */
  method FlushValue(ret: SpanArray, s: string, c: Scan, i: nat, ghost at: nat, ghost q: nat)
    requires at <= i <= |s| && q < i - at && Value(c, s[at..i], at, q) && At(s, i) != ':'
    modifies ret
    ensures ret.spans == old(ret.spans) + ValueSpans(s[at..i][q + 1..], at + q + 1, c.field)
  {
    hide First, Stop, Equals, FieldSpans, GetField, Plain, Trim, Under;
    ghost var b, from := s[at..i], at + q + 1;
    ghost var w := b[q + 1..];
    Slice(s, at, i - at, q + 1, i - at);
    assert w == s[from..i];
    ValueUnder(c, b, at, q);
    if c.len > 0 {
      ret.Append(c.equals, 1, HighlightDelimiter);
      ShowValue(ret, s, c, i, from);
      ghost var d, v := [Span(HighlightDelimiter, from - 1, 1)], FieldSpans(Trim(w), c.start, c.field);
      assert old(ret.spans) + d + v == old(ret.spans) + (d + v);
    } else {
      ret.Append(c.equals, 1, HighlightError);
    }
  }

  method ShowValue(ret: SpanArray, s: string, c: Scan, i: nat, ghost from: nat)
    requires from <= i <= |s| && At(s, i) != ':' && c.len > 0 && Under(s[from..i], from, c.start, c.len, c.lastSpace)
    modifies ret
    ensures ret.spans == old(ret.spans) + FieldSpans(Trim(s[from..i]), c.start, c.field)
  {
    hide First, Stop, FieldSpans, Trim, Under;
    UnderTrim(s, from, i, c.start, c.len, c.lastSpace);
    HighlightValue(ret, s, c.start, c.lastSpace, c.field);
  }

  lemma ValueUnder(c: Scan, b: string, at: nat, q: nat)
    requires q < |b| && Value(c, b, at, q)
    ensures c.equals == at + q
    ensures var w := b[q + 1..];
      if c.len == 0 then First(w) == |w| && Trim(w) == "" && c.start == at + |b|
      else First(w) < |w| && Trim(w) != "" && Under(w, at + q + 1, c.start, c.len, c.lastSpace)
           && c.start == at + q + 1 + First(w)
  {
    hide First, Stop, Equals, GetField, Plain;
  }

  //
  // Reading one more character of a line
  //

  lemma PlainSnoc(b: string, ch: char)
    requires Plain(b) && ch != '#'
    ensures Plain(b + [ch])
  {
  }

  /** The equals sign stays where it is, or is found now. */
  lemma EqualsSnoc(b: string, f: nat, ch: char)
    requires f < |b|
    ensures Equals(b + [ch], f)
         == if Equals(b, f) < |b| then Equals(b, f) else if ch == '=' then |b| else |b| + 1
  {
    var t, u := b[f + 1..], (b + [ch])[f + 1..];
    assert u == t + [ch];
    FindIs(u, '=', if Find(t, '=') < |t| then Find(t, '=') else if ch == '=' then |t| else |t| + 1);
  }

  lemma NextNone(c: Scan, b: string, at: nat, ch: char)
    requires Nothing(c, b, at) && Blank(ch)
    ensures c.start == at + |b| && c.len == 0 && Nothing(c.(start := c.start + 1), b + [ch], at)
  {
    hide Under, First;
    UnderNext(b, at, c.start, c.len, c.lastSpace, ch);
    FirstSnoc(b, ch);
    assert c.len == 0 by {
      NoneUnder(c, b, at);
    }
  }

  lemma NoneUnder(c: Scan, b: string, at: nat)
    requires Nothing(c, b, at)
    ensures c.len == 0
  {
  }

  /** The first character that counts. */
  lemma StartWord(c: Scan, b: string, at: nat, ch: char)
    requires Nothing(c, b, at) && !Blank(ch) && ch != '#'
    ensures Word(c.(state := if ch == '[' then OnSection else OnKey, len := c.len + 1, lastSpace := c.len + 1),
                 b + [ch], at)
  {
    hide Under, First, Equals, Plain;
    UnderNext(b, at, c.start, c.len, c.lastSpace, ch);
    FirstSnoc(b, ch);
    BlankBody(b, at, Invalid);
    PlainSnoc(b, ch);
    assert (b + [ch])[|b|] == ch;
    EqualsAtEnd(b + [ch], |b|);
  }

  lemma EqualsAtEnd(b: string, f: nat)
    requires f + 1 == |b|
    ensures Equals(b, f) == |b|
  {
  }

  /** What a blank or another character does to the span under way. */
  function Longer(c: Scan, ch: char): Scan {
    if Blank(ch) then if c.len == 0 then c.(start := c.start + 1) else c.(len := c.len + 1)
    else c.(len := c.len + 1, lastSpace := c.len + 1)
  }

  lemma LongerKeeps(c: Scan, ch: char)
    ensures var d := Longer(c, ch);
      d.state == c.state && d.equals == c.equals && d.field == c.field && d.section == c.section
  {
  }

  lemma NextWord(c: Scan, b: string, at: nat, ch: char)
    requires Word(c, b, at) && c.state in [OnKey, OnSection] && ch != '#' && !(ch == '=' && c.state == OnKey)
    ensures c.len > 0 && Word(Longer(c, ch), b + [ch], at)
  {
    hide First, Equals, Plain, Stop;
    var f := First(b);
    UnderNext(b, at, c.start, c.len, c.lastSpace, ch);
    FirstSnoc(b, ch);
    PlainSnoc(b, ch);
    EqualsSnoc(b, f, ch);
    assert (b + [ch])[f] == b[f];
  }

  /** The equals sign. */
  lemma {:induction false} StartValue(c: Scan, b: string, at: nat, d: Scan)
    requires Word(c, b, at) && c.state == OnKey
    requires d.start == at + |b| + 1 && d.len == 0 && d.equals == at + |b| && d.field == GetField(Trim(b))
    ensures Value(d, b + ['='], at, |b|) && First(b + ['=']) == First(b) < |b| && Equals(b + ['='], First(b)) == |b|
    ensures (b + ['='])[..|b|] == b
  {
    hide First, Equals, Plain, GetField, Trim, Under;
    var t, f := b + ['='], First(b);
    FirstSnoc(b, '=');
    PlainSnoc(b, '=');
    EqualsSnoc(b, f, '=');
    assert t[f] == b[f] && t[..|b|] == b && t[|b| + 1..] == "";
    UnderStart(at + |b| + 1);
  }

  lemma {:induction false} NextValue(c: Scan, b: string, at: nat, q: nat, ch: char)
    requires First(b) < q < |b| && Value(c, b, at, q) && ch != '#'
    ensures c.len == 0 ==> c.start == at + |b|
    ensures var t := b + [ch];
      First(t) == First(b) && Equals(t, First(b)) == q && t[..q] == b[..q] && Value(Longer(c, ch), t, at, q)
  {
    hide First, Equals, Plain, GetField, Trim, Under, Longer;
    assert Longer(c, ch).equals == c.equals && Longer(c, ch).field == c.field by {
      LongerKeeps(c, ch);
    }
    var t, f, w := b + [ch], First(b), b[q + 1..];
    FirstSnoc(b, ch);
    PlainSnoc(b, ch);
    EqualsSnoc(b, f, ch);
    SnocParts(b, q, ch);
    ValueNext(c, w, at + q + 1, ch);
    assert t[f] == b[f];
  }

  lemma SnocParts(b: string, q: nat, ch: char)
    requires q < |b|
    ensures (b + [ch])[..q] == b[..q] && (b + [ch])[q + 1..] == b[q + 1..] + [ch]
  {
  }

  lemma ValueNext(c: Scan, w: string, at: nat, ch: char)
    requires Under(w, at, c.start, c.len, if c.len == 0 then 0 else c.lastSpace)
    ensures c.len == 0 ==> c.start == at + |w|
    ensures var d := Longer(c, ch);
      Under(w + [ch], at, d.start, d.len, if d.len == 0 then 0 else d.lastSpace)
  {
    hide Under;
    UnderNext(w, at, c.start, c.len, if c.len == 0 then 0 else c.lastSpace, ch);
  }

  lemma NextComment(c: Scan, b: string, at: nat, section: Field, more: seq<Span>, ch: char)
    requires c.state == OnComment && InLine(c, b, at, section, more)
    ensures InLine(c.(len := c.len + 1), b + [ch], at, section, more)
  {
    hide Find, BodySpans, SectionAfter;
    var h, t := Find(b, '#'), b + [ch];
    FindIs(t, '#', h);
    assert t[..h] == b[..h];
  }

  /** One more character of a section, key, value or of the blanks before them. */
  lemma NextInLine(c: Scan, b: string, at: nat, section: Field, more: seq<Span>, ch: char)
    requires InLine(c, b, at, section, more) && c.state != OnComment && ch != '#'
    requires !(ch == '=' && c.state == OnKey) && (c.state == OnNone ==> Blank(ch))
    ensures c.len == 0 ==> c.start == at + |b|
    ensures InLine(Longer(c, ch), b + [ch], at, section, more)
  {
    hide Under, First, Stop, Trim, Equals, Plain, KeyKind, Nothing, Word, Value, Longer;
    LongerKeeps(c, ch);
    match c.state
    case OnNone =>
      NextNone(c, b, at, ch);
      LongerNone(c, ch);
    case OnKey | OnSection =>
      NextWord(c, b, at, ch);
    case OnValue =>
      ValueInLine(c, b, at, section, more);
      NextValue(c, b, at, Equals(b, First(b)), ch);
  }

  lemma LongerNone(c: Scan, ch: char)
    requires c.len == 0 && Blank(ch)
    ensures Longer(c, ch) == c.(start := c.start + 1)
  {
  }

  lemma WordInLine(c: Scan, b: string, at: nat, section: Field, more: seq<Span>, ch: char)
    requires InLine(c, b, at, section, more) && c.state == OnNone && !Blank(ch) && ch != '#'
    ensures InLine(Longer(c, ch).(state := if ch == '[' then OnSection else OnKey), b + [ch], at, section, more)
  {
    hide Under, First, Nothing, Word;
    StartWord(c, b, at, ch);
  }

  lemma PairInLine(c: Scan, b: string, at: nat, section: Field, more: seq<Span>, d: Scan)
    requires InLine(c, b, at, section, more) && c.state == OnKey
    requires d == Scan(OnValue, at + |b| + 1, 0, c.lastSpace, at + |b|, section, GetField(Trim(b)))
    ensures InLine(d, b + ['='], at, section, One(KeyKind(Trim(b), section), c.start, |Trim(b)|))
  {
    hide First, Trim, Equals, KeyKind, Value, Plain, GetField;
    StartValue(c, b, at, d);
  }

  /** Lines 614 to 636: a character that ends nothing. */
  method ScanChar(ret: SpanArray, s: string, c: Scan, i: nat, ghost at: nat, ghost section: Field,
                  ghost before: seq<Span>, ghost more0: seq<Span>)
    returns (d: Scan, ghost more: seq<Span>)
    requires at <= i < |s| && InLine(c, s[at..i], at, section, more0) && ret.spans == before + more0
    requires c.state == OnComment || s[i] != '#'
    modifies ret
    ensures InLine(d, s[at..i + 1], at, section, more) && ret.spans == before + more
  {
    hide Under, First, Stop, Trim, InLine, KeyKind, GetField, SectionForField;
    ghost var b := s[at..i];
    var ch := s[i];
    assert s[at..i + 1] == b + [ch];
    more := more0;
    if c.state == OnComment {
      NextComment(c, b, at, section, more, ch);
      d := c.(len := c.len + 1);
    } else if ch == ' ' || ch == '\t' {
      NextInLine(c, b, at, section, more, ch);
      if i == c.start && c.len == 0 {
        d := c.(start := c.start + 1);
      } else {
        d := c.(len := c.len + 1);
      }
    } else if ch == '=' && c.state == OnKey {
      d, more := EndKey(ret, s, c, i, at, section, before, more0);
    } else if c.state == OnNone {
      WordInLine(c, b, at, section, more, ch);
      d := c.(state := if ch == '[' then OnSection else OnKey, len := c.len + 1, lastSpace := c.len + 1);
    } else {
      NextInLine(c, b, at, section, more, ch);
      d := c.(len := c.len + 1, lastSpace := c.len + 1);
    }
  }

  /** The equals sign behind a key. */
  method EndKey(ret: SpanArray, s: string, c: Scan, i: nat, ghost at: nat, ghost section: Field,
                ghost before: seq<Span>, ghost more0: seq<Span>)
    returns (d: Scan, ghost more: seq<Span>)
    requires at <= i < |s| && InLine(c, s[at..i], at, section, more0) && ret.spans == before + more0
    requires c.state == OnKey && s[i] == '='
    modifies ret
    ensures InLine(d, s[at..i] + ['='], at, section, more) && ret.spans == before + more
  {
    hide First, Stop, Trim, KeyKind, GetField, Plain, Equals, SectionForField, Under;
    ghost var b := s[at..i];
    UnderTrim(s, at, i, c.start, c.len, c.lastSpace);
    var key := s[c.start..c.start + c.lastSpace];
    var field := GetField(key);
    var section' := SectionForField(field);
    KeyKindIs(key, c.section);
    if section' == Invalid || field == Invalid || section' != c.section {
      ret.Append(c.start, c.lastSpace, HighlightError);
    } else {
      ret.Append(c.start, c.lastSpace, HighlightField);
    }
    d := c.(state := OnValue, start := i + 1, len := 0, equals := i, field := field);
    more := One(KeyKind(key, section), c.start, c.lastSpace);
    PairInLine(c, b, at, section, more0, d);
    assert before + more0 == before;
  }

  lemma KeyKindIs(key: string, section: Field)
    ensures var field := GetField(key);
      var theirs := SectionForField(field);
      KeyKind(key, section)
      == if theirs == Invalid || field == Invalid || theirs != section then HighlightError else HighlightField
  {
    hide GetField;
  }

  //
  // The whole text
  //

  lemma PlainLine(b: string, at: nat, section: Field)
    requires Plain(b)
    ensures LineSpans(b, at, section) == BodySpans(b, at, section)
    ensures SectionAfterLine(b, section) == SectionAfter(b, section)
  {
    hide BodySpans, SectionAfter;
    FindIs(b, '#', |b|);
    assert b[..|b|] == b;
  }

  lemma FlushedLine(spans: seq<Span>, before: seq<Span>, comment: bool, b: string, at: nat, section: Field,
                    after: Field)
    requires Flushed(spans, before, comment, b, at, section, after)
    ensures spans == before + LineSpans(b, at, section) && after == SectionAfterLine(b, section)
  {
    hide BodySpans, LineSpans, SectionAfter, SectionAfterLine;
    if !comment {
      PlainLine(b, at, section);
    }
  }

  lemma CommentStarts(spans: seq<Span>, before: seq<Span>, b: string, at: nat, section: Field, after: Field, d: Scan)
    requires Flushed(spans, before, false, b, at, section, after)
    requires d.state == OnComment && d.start == at + |b| && d.len == 1 && d.section == after
    ensures spans == before + BodySpans(b, at, section) && InLine(d, b + ['#'], at, section, BodySpans(b, at, section))
  {
    hide BodySpans, SectionAfter;
    FindIs(b + ['#'], '#', |b|);
    assert (b + ['#'])[..|b|] == b;
  }

  lemma LineStarts(at: nat, d: Scan)
    requires d.state == OnNone && d.start == at && d.len == 0 && d.lastSpace == 0
    ensures InLine(d, "", at, d.section, [])
  {
  }

  const SIZE_MAX: nat := 0xFFFF_FFFF_FFFF_FFFF

  /** The scanner is at position i of s, in the line that began at position at. */
  ghost predicate Scanning(s: string, spans: seq<Span>, c: Scan, i: nat, at: nat, section: Field,
                           before: seq<Span>, more: seq<Span>)
  {
    at <= i <= |s| && '\n' !in s[at..i] && spans == before + more && InLine(c, s[at..i], at, section, more)
    && Spans(s, 0, Invalid) == before + Spans(s[at..], at, section)
  }

  lemma {:induction false} TextEnds(s: string, spans: seq<Span>, at: nat, section: Field, before: seq<Span>)
    requires at <= |s| && '\n' !in s[at..] && Spans(s, 0, Invalid) == before + Spans(s[at..], at, section)
    requires spans == before + LineSpans(s[at..], at, section)
    ensures spans == Spans(s, 0, Invalid)
  {
    hide Spans, LineSpans;
    SpansLast(s[at..], at, section);
  }

  lemma LineEnds(s: string, spans: seq<Span>, i: nat, at: nat, section: Field, before: seq<Span>, after: Field)
    requires at <= i < |s| && s[i] == '\n' && '\n' !in s[at..i]
    requires Spans(s, 0, Invalid) == before + Spans(s[at..], at, section)
    requires spans == before + LineSpans(s[at..i], at, section) && after == SectionAfterLine(s[at..i], section)
    ensures Spans(s, 0, Invalid) == spans + Spans(s[i + 1..], i + 1, after)
  {
    hide Spans, LineSpans, SectionAfterLine;
    var line, rest := s[at..i], s[i + 1..];
    LineCut(s, i, at);
    SpansCut(line, rest, at, section);
    assert at + |line| + 1 == i + 1;
    Associate(before, LineSpans(line, at, section), Spans(rest, i + 1, after));
  }

  lemma LineCut(s: string, i: nat, at: nat)
    requires at <= i < |s| && s[i] == '\n'
    ensures s[at..] == s[at..i] + "\n" + s[i + 1..]
  {
  }

  /** highlight_config: the spans of the text, line by line, and an end mark. */
  method HighlightConfig(config: string) returns (spans: seq<Span>)
    ensures spans == Spans(config, 0, Invalid) + [Span(HighlightEnd, 0, SIZE_MAX)]
  {
    hide Spans, InLine, LineSpans, BodySpans, SectionAfterLine, Flushed;
    var ret := new SpanArray();
    var c, i := Scan(OnNone, 0, 0, 0, 0, Invalid, Invalid), 0;
    ghost var at: nat, section, before: seq<Span>, more: seq<Span> := 0, Invalid, [], [];
    LineStarts(0, c);
    assert config[0..] == config && config[0..0] == "";
    while true
      invariant 0 <= i <= |config| && Scanning(config, ret.spans, c, i, at, section, before, more)
      decreases |config| - i
    {
      if i == |config| || config[i] == '\n' || (c.state != OnComment && config[i] == '#') {
        var after := Flush(ret, config, c, i, at, section, before, more);
        FlushedLine(ret.spans, before, c.state == OnComment, config[at..i], at, section, after);
        if i == |config| {
          assert config[at..i] == config[at..];
          TextEnds(config, ret.spans, at, section, before);
          break;
        }
        assert config[at..i + 1] == config[at..i] + [config[i]];
        if config[i] == '#' {
          var d := Scan(OnComment, i, 1, 0, c.equals, after, Invalid);
          CommentStarts(ret.spans, before, config[at..i], at, section, after, d);
          c, more := d, BodySpans(config[at..i], at, section);
        } else {
          LineEnds(config, ret.spans, i, at, section, before, after);
          c := Scan(OnNone, i + 1, 0, 0, c.equals, after, Invalid);
          at, section, before, more := i + 1, after, ret.spans, [];
          LineStarts(at, c);
          assert config[i + 1..i + 1] == "";
        }
      } else {
        assert config[at..i + 1] == config[at..i] + [config[i]];
        c, more := ScanChar(ret, config, c, i, at, section, before, more);
      }
      i := i + 1;
    }
    ret.Append(0, SIZE_MAX, HighlightEnd);
    spans := ret.spans;
  }
}
