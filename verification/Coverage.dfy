/** The spans of a text are in order, apart, inside the text and nonempty, and
    leave out nothing but blanks and line breaks. */
module Coverage {
  import opened Words
  import opened ConfigText
  import opened Highlighting

  predicate Skipped(c: char) {
    Blank(c) || c == '\n'
  }

  predicate OneLine(t: string) {
    '\n' !in t
  }

  predicate AllSkipped(t: string) {
    forall i :: 0 <= i < |t| ==> Skipped(t[i])
  }

  /** Going through the spans in order, each begins behind skipped characters only
      and has at least one character, none of which ends a line. */
  predicate Marks(spans: seq<Span>, t: string, at: nat) {
    if spans == [] then AllSkipped(t)
    else
      var s := spans[0];
      at <= s.start && s.len > 0 && s.start + s.len <= at + |t| && s.kind != HighlightEnd
      && AllSkipped(t[..s.start - at]) && OneLine(t[s.start - at..s.start - at + s.len])
      && Marks(spans[1..], t[s.start + s.len - at..], s.start + s.len)
  }

  /** What Marks means for each position: the spans are in bounds and in order... */
  predicate Ordered(spans: seq<Span>, lo: nat, hi: nat) {
    (forall k :: 0 <= k < |spans| ==> lo <= spans[k].start && spans[k].len > 0 && spans[k].start + spans[k].len <= hi)
    && forall j, k :: 0 <= j < k < |spans| ==> spans[j].start + spans[j].len <= spans[k].start
  }

  predicate In(s: Span, i: nat) {
    s.start <= i < s.start + s.len
  }

  /** ...and a character is in one of them unless it is skipped; none ends a line. */
  lemma {:induction false} MarksOrdered(spans: seq<Span>, t: string, at: nat)
    requires Marks(spans, t, at)
    ensures Ordered(spans, at, at + |t|)
  {
    if spans != [] {
      var s, rest := spans[0], spans[1..];
      var n := s.start + s.len - at;
      MarksOrdered(rest, t[n..], at + n);
      assert forall k :: 1 <= k < |spans| ==> spans[k] == rest[k - 1];
    }
  }

  lemma {:induction false} MarksCover(spans: seq<Span>, t: string, at: nat, i: nat)
    requires Marks(spans, t, at) && at <= i < at + |t| && !Skipped(t[i - at])
    ensures exists k :: 0 <= k < |spans| && In(spans[k], i)
  {
    var s, rest := spans[0], spans[1..];
    var n := s.start + s.len - at;
    if i < s.start + s.len {
      assert In(spans[0], i);
    } else {
      assert t[n..][i - at - n] == t[i - at];
      MarksCover(rest, t[n..], at + n, i);
      var k :| 0 <= k < |rest| && In(rest[k], i);
      assert In(spans[k + 1], i);
    }
  }

  /** No span reaches over the end of a line. */
  lemma {:induction false} MarksOneLine(spans: seq<Span>, t: string, at: nat, k: nat, i: nat)
    requires Marks(spans, t, at) && k < |spans| && In(spans[k], i)
    ensures at <= i < at + |t| && t[i - at] != '\n' && spans[k].kind != HighlightEnd
  {
    var s, rest := spans[0], spans[1..];
    var n := s.start + s.len - at;
    if k == 0 {
      assert t[s.start - at..n][i - s.start] == t[i - at];
    } else {
      MarksOneLine(rest, t[n..], at + n, k - 1, i);
      assert t[n..][i - at - n] == t[i - at];
    }
  }

  //
  // Putting marked texts together
  //

  lemma SkippedConcat(t: string, u: string)
    requires AllSkipped(t) && AllSkipped(u)
    ensures AllSkipped(t + u)
  {
  }

  /** A text cut at its first span. */
  lemma {:induction false} MarksHead(spans: seq<Span>, t: string, at: nat)
    returns (pre: string, mid: string, post: string)
    requires Marks(spans, t, at) && spans != []
    ensures t == pre + mid + post && spans[0].start == at + |pre| && spans[0].len == |mid| > 0
    ensures spans[0].kind != HighlightEnd && AllSkipped(pre) && OneLine(mid)
    ensures Marks(spans[1..], post, at + |pre| + |mid|)
  {
    hide AllSkipped, OneLine;
    var m, n := spans[0].start - at, spans[0].start + spans[0].len - at;
    pre, mid, post := t[..m], t[m..n], t[n..];
  }

  lemma {:induction false} MarksCons(s: Span, rest: seq<Span>, pre: string, mid: string, post: string, at: nat)
    requires s.start == at + |pre| && s.len == |mid| > 0 && s.kind != HighlightEnd && AllSkipped(pre) && OneLine(mid)
    requires Marks(rest, post, at + |pre| + |mid|)
    ensures Marks([s] + rest, pre + mid + post, at)
  {
    hide AllSkipped, OneLine;
    var t, m, n := pre + mid + post, |pre|, |pre| + |mid|;
    assert t[..m] == pre && t[m..n] == mid && t[n..] == post;
    assert ([s] + rest)[1..] == rest;
  }

  lemma {:induction false} MarksConcat(a: seq<Span>, t: string, b: seq<Span>, u: string, at: nat)
    requires Marks(a, t, at) && Marks(b, u, at + |t|)
    ensures Marks(a + b, t + u, at)
  {
    if a == [] {
      assert a + b == b;
      SkippedAhead(t, b, u, at);
    } else {
      hide Marks, AllSkipped, OneLine;
      var pre, mid, post := MarksHead(a, t, at);
      MarksConcat(a[1..], post, b, u, at + |pre| + |mid|);
      MarksCons(a[0], a[1..] + b, pre, mid, post + u, at);
      Associate(pre + mid, post, u);
      assert a == [a[0]] + a[1..];
      Associate([a[0]], a[1..], b);
    }
  }

  lemma {:induction false} SkippedAhead(t: string, b: seq<Span>, u: string, at: nat)
    requires AllSkipped(t) && Marks(b, u, at + |t|)
    ensures Marks(b, t + u, at)
  {
    if b == [] {
      SkippedConcat(t, u);
    } else {
      hide Marks, AllSkipped, OneLine;
      var pre, mid, post := MarksHead(b, u, at + |t|);
      SkippedConcat(t, pre);
      var all := t + pre;
      assert |all| == |t| + |pre|;
      MarksCons(b[0], b[1..], all, mid, post, at);
      assert [b[0]] + b[1..] == b;
      Regroup(t, pre, mid, post);
    }
  }

  lemma Regroup(a: string, b: string, c: string, d: string)
    ensures a + b + c + d == a + (b + c + d)
  {
  }

  lemma MarksConcat3(a: seq<Span>, t: string, b: seq<Span>, u: string, c: seq<Span>, w: string, at: nat)
    requires Marks(a, t, at) && Marks(b, u, at + |t|) && Marks(c, w, at + |t| + |u|)
    ensures Marks(a + b + c, t + u + w, at)
  {
    hide Marks;
    MarksConcat(a, t, b, u, at);
    MarksConcat(a + b, t + u, c, w, at);
  }

  lemma {:induction false} MarksSpan(kind: Kind, t: string, at: nat)
    requires OneLine(t) && kind != HighlightEnd && t != ""
    ensures Marks([Span(kind, at, |t|)], t, at)
  {
    var spans := [Span(kind, at, |t|)];
    assert spans[1..] == [] && t[|t|..] == "";
    assert t[0..|t|] == t;
  }

  lemma {:induction false} MarksOne(kind: Kind, t: string, at: nat)
    requires OneLine(t) && kind != HighlightEnd
    ensures Marks(One(kind, at, |t|), t, at)
  {
    hide Marks, OneLine;
    if t == "" {
      MarksNothing(t, at);
    } else {
      MarksSpan(kind, t, at);
    }
  }

  lemma {:induction false} MarksAround(pre: string, spans: seq<Span>, t: string, post: string, at: nat)
    requires AllSkipped(pre) && Marks(spans, t, at + |pre|) && AllSkipped(post)
    ensures Marks(spans, pre + t + post, at)
  {
    hide Marks, AllSkipped;
    SkippedAhead(pre, spans, t, at);
    MarksNothing(post, at + |pre + t|);
    MarksConcat(spans, pre + t, [], post, at);
    assert spans + [] == spans;
  }

  lemma CutTwice(b: string, f: nat, e: nat)
    requires f <= e <= |b|
    ensures b == b[..f] + b[f..e] + b[e..]
  {
    assert b[..f] + b[f..e] == b[..e];
  }

  lemma SkippedSlice(b: string, from: nat, to: nat)
    requires from <= to <= |b| && forall i :: from <= i < to ==> Blank(b[i])
    ensures AllSkipped(b[from..to])
  {
  }

  /** Blanks around a marked text. */
  lemma {:induction false} MarksTrimmed(spans: seq<Span>, b: string, at: nat)
    requires First(b) < |b| && Marks(spans, Trim(b), at + First(b))
    ensures Marks(spans, b, at)
  {
    hide Marks, AllSkipped, First, Stop;
    var f, e, n := First(b), Stop(b), |b|;
    SkippedSlice(b, 0, f);
    SkippedSlice(b, e, n);
    assert b[0..f] == b[..f] && b[e..n] == b[e..];
    CutTwice(b, f, e);
    MarksAround(b[..f], spans, b[f..e], b[e..], at);
  }

  lemma {:induction false} MarksNothing(t: string, at: nat)
    requires AllSkipped(t)
    ensures Marks([], t, at)
  {
  }

  lemma Sliced(b: string, from: nat, to: nat)
    requires OneLine(b) && from <= to <= |b|
    ensures OneLine(b[from..to])
  {
  }

  lemma {:induction false} MarksThree(kinds: (Kind, Kind), v: string, at: nat, k: nat)
    requires k < |v| && OneLine(v) && kinds.0 != HighlightEnd && kinds.1 != HighlightEnd
    ensures Marks(Three(kinds, at, k, |v|), v, at)
  {
    hide Marks, One, OneLine;
    var n := |v|;
    var t, c, u := v[0..k], v[k..k + 1], v[k + 1..n];
    Sliced(v, 0, k);
    Sliced(v, k, k + 1);
    Sliced(v, k + 1, n);
    MarksOne(kinds.0, t, at);
    MarksOne(HighlightDelimiter, c, at + k);
    MarksOne(kinds.1, u, at + k + 1);
    Cut(v, k);
    MarksConcat3(One(kinds.0, at, k), t, One(HighlightDelimiter, at + k, 1), c,
                 One(kinds.1, at + k + 1, n - k - 1), u, at);
  }

  lemma Cut(v: string, k: nat)
    requires k < |v|
    ensures v == v[0..k] + v[k..k + 1] + v[k + 1..|v|]
  {
    var n := |v|;
    assert v[0..k] + v[k..k + 1] == v[0..k + 1];
    assert v[0..k + 1] + v[k + 1..n] == v;
  }

  //
  // Marks at every level
  //

  lemma {:induction false} PieceMarks(v: string, at: nat, field: Field)
    requires OneLine(v)
    ensures Marks(PieceSpans(v, at, field), v, at)
  {
    hide Marks, IPv4, IPv6, Hostname, Network, Three, One;
    MarksOne(HighlightIP, v, at);
    MarksOne(HighlightHost, v, at);
    MarksOne(HighlightError, v, at);
    if Find(v, '/') < |v| {
      MarksThree((HighlightIP, HighlightCidr), v, at, Find(v, '/'));
    }
  }

  /** A piece between commas with the blanks around it. */
  lemma {:induction false} PieceMarksTrimmed(v: string, at: nat, field: Field)
    requires OneLine(v)
    ensures Marks(PieceSpans(Trim(v), at + First(v), field), v, at)
  {
    hide Marks, PieceSpans, First, Stop, OneLine;
    if First(v) == |v| {
      NoPiece(at + First(v), field);
      MarksNothing(v, at);
    } else {
      Sliced(v, First(v), Stop(v));
      PieceMarks(Trim(v), at + First(v), field);
      hide Trim;
      MarksTrimmed(PieceSpans(Trim(v), at + First(v), field), v, at);
    }
  }

  lemma {:induction false} ListMarks(v: string, at: nat, field: Field)
    requires OneLine(v)
    ensures Marks(ListSpans(v, at, field), v, at)
    decreases |v|
  {
    hide Marks, PieceSpans, ListSpans, Trim, First, Find, CommaKind, OneLine;
    var n := Find(v, ',');
    if n == |v| {
      ListLast(v, at, field);
      PieceMarksTrimmed(v, at, field);
    } else {
      var piece, rest := v[0..n], v[n + 1..|v|];
      Sliced(v, 0, n);
      Sliced(v, n + 1, |v|);
      assert v == piece + "," + rest;
      ListCut(piece, rest, at, field);
      var spans, comma := PieceSpans(Trim(piece), at + First(piece), field), [Span(CommaKind(rest), at + n, 1)];
      PieceMarksTrimmed(piece, at, field);
      CommaMarks(rest, at + n);
      ListMarks(rest, at + n + 1, field);
      MarksConcat3(spans, piece, comma, ",", ListSpans(rest, at + n + 1, field), rest, at);
    }
  }

  lemma {:induction false} CommaMarks(rest: string, at: nat)
    ensures Marks([Span(CommaKind(rest), at, 1)], ",", at)
  {
    MarksSpan(CommaKind(rest), ",", at);
  }

  lemma {:induction false} FieldMarks(v: string, at: nat, field: Field)
    requires OneLine(v)
    ensures Marks(FieldSpans(v, at, field), v, at)
  {
    hide Marks, EndpointText, ListSpans, Three, One, ValueKind;
    MarksOne(HighlightError, v, at);
    match field
    case Endpoint =>
      if EndpointText(v) {
        EndpointHasColon(v);
        MarksThree((HighlightHost, HighlightPort), v, at, FindLast(v, ':'));
      }
    case Address | DNS | AllowedIPs =>
      ListMarks(v, at, field);
    case _ =>
      NotEnd(field, v);
      MarksOne(ValueKind(field, v), v, at);
  }

  lemma NotEnd(field: Field, v: string)
    ensures ValueKind(field, v) != HighlightEnd
  {
    hide Key, Number, FwMarkText, TableText, Port, Keepalive;
  }

  /** An equals sign and what stands behind it. */
  lemma {:induction false} ValueMarks(w: string, at: nat, field: Field)
    requires at > 0 && OneLine(w)
    ensures Marks(ValueSpans(w, at, field), "=" + w, at - 1)
  {
    hide Marks, FieldSpans, OneLine, First, Stop;
    if First(w) == |w| {
      NoValueMarks(w, at);
    } else {
      var v, to := Trim(w), at + First(w);
      Sliced(w, First(w), Stop(w));
      FieldMarks(v, to, field);
      EqualsMarks(w, at, FieldSpans(v, to, field));
    }
  }

  lemma {:induction false} SignMarks(kind: Kind, at: nat)
    requires kind != HighlightEnd
    ensures Marks([Span(kind, at, 1)], "=", at)
  {
    hide Marks;
    MarksSpan(kind, "=", at);
  }

  lemma NoValueMarks(w: string, at: nat)
    requires at > 0 && AllSkipped(w)
    ensures Marks([Span(HighlightError, at - 1, 1)], "=" + w, at - 1)
  {
    hide Marks;
    SignMarks(HighlightError, at - 1);
    MarksAround("", [Span(HighlightError, at - 1, 1)], "=", w, at - 1);
    assert "" + "=" + w == "=" + w;
  }

  lemma EqualsMarks(w: string, at: nat, spans: seq<Span>)
    requires at > 0 && First(w) < |w| && Marks(spans, Trim(w), at + First(w))
    ensures Marks([Span(HighlightDelimiter, at - 1, 1)] + spans, "=" + w, at - 1)
  {
    hide *;
    MarksTrimmed(spans, w, at);
    SignMarks(HighlightDelimiter, at - 1);
    MarksConcat([Span(HighlightDelimiter, at - 1, 1)], "=", spans, w, at - 1);
  }

  /** The text before an equals sign. */
  lemma KeyMarks(k: string, at: nat, section: Field)
    requires OneLine(k) && First(k) < |k|
    ensures Marks(One(KeyKind(Trim(k), section), at + First(k), |Trim(k)|), k, at)
  {
    hide Marks, OneLine, KeyKind, First, Stop;
    var key := Trim(k);
    KeyKinds(key, section);
    Sliced(k, First(k), Stop(k));
    hide Trim;
    MarksOne(KeyKind(key, section), key, at + First(k));
    MarksTrimmed(One(KeyKind(key, section), at + First(k), |key|), k, at);
  }

  /** A key and its value. */
  lemma {:induction false} PairMarks(b: string, q: nat, at: nat, section: Field)
    requires OneLine(b) && First(b) < q < |b| && b[q] == '='
    ensures Marks(PairSpans(b, q, at, section), b, at)
  {
    hide Marks, ValueSpans, GetField, KeyKind, OneLine, Trim, First, Stop, One;
    var n := |b|;
    var k, w := b[..q], b[q + 1..];
    var key := Trim(k);
    assert b[0..q] == k && b[q + 1..n] == w && b == k + ("=" + w);
    Sliced(b, 0, q);
    Sliced(b, q + 1, n);
    FirstOfPrefix(b, q);
    KeyMarks(k, at, section);
    ValueMarks(w, at + q + 1, GetField(key));
    MarksConcat(One(KeyKind(key, section), at + First(b), |key|), k,
                ValueSpans(w, at + q + 1, GetField(key)), "=" + w, at);
  }

  lemma KeyKinds(key: string, section: Field)
    ensures KeyKind(key, section) != HighlightEnd
  {
    hide GetField;
  }

  lemma {:induction false} FirstOfPrefix(b: string, q: nat)
    requires First(b) < q <= |b|
    ensures First(b[..q]) == First(b)
  {
    var f, g := First(b), First(b[..q]);
    assert b[..q][f] == b[f];
    assert g < q ==> b[..q][g] == b[g];
  }

  /** A whole line in one span. */
  lemma WholeMarks(kind: Kind, b: string, at: nat)
    requires OneLine(b) && First(b) < |b| && kind != HighlightEnd
    ensures Marks([Span(kind, at + First(b), Stop(b) - First(b))], b, at)
  {
    hide Marks, OneLine;
    var v := Trim(b);
    Sliced(b, First(b), Stop(b));
    MarksSpan(kind, v, at + First(b));
    MarksTrimmed([Span(kind, at + First(b), |v|)], b, at);
  }

  lemma {:induction false} BodyMarks(b: string, at: nat, section: Field)
    requires OneLine(b)
    ensures Marks(BodySpans(b, at, section), b, at)
  {
    hide Marks, PairSpans, SectionType, Trim, OneLine, First, Stop, Equals;
    var f := First(b);
    if f == |b| {
      MarksNothing(b, at);
    } else if b[f] != '[' && Equals(b, f) < |b| {
      PairMarks(b, Equals(b, f), at, section);
    } else {
      WholeMarks(HighlightError, b, at);
      WholeMarks(HighlightSection, b, at);
    }
  }

  lemma {:induction false} LineMarks(line: string, at: nat, section: Field)
    requires OneLine(line)
    ensures Marks(LineSpans(line, at, section), line, at)
  {
    hide Marks, BodySpans, Find, OneLine, One;
    var h, n := Find(line, '#'), |line|;
    var body, comment := line[0..h], line[h..n];
    Sliced(line, 0, h);
    Sliced(line, h, n);
    BodyMarks(body, at, section);
    MarksOne(HighlightComment, comment, at + h);
    assert line == body + comment && line[..h] == body;
    MarksConcat(BodySpans(body, at, section), body, One(HighlightComment, at + h, n - h), comment, at);
  }

  lemma {:induction false} BreakMarks(spans: seq<Span>, line: string, at: nat)
    requires Marks(spans, line, at)
    ensures Marks(spans, line + "\n", at)
  {
    hide Marks;
    MarksAround("", spans, line, "\n", at);
    assert "" + line + "\n" == line + "\n";
  }

  lemma {:induction false} TextMarks(t: string, at: nat, section: Field)
    ensures Marks(Spans(t, at, section), t, at)
    decreases |t|
  {
    hide Marks, Spans, LineSpans, SectionAfterLine, Find;
    var n := Find(t, '\n');
    if n == |t| {
      SpansLast(t, at, section);
      LineMarks(t, at, section);
    } else {
      var line, rest := t[..n], t[n + 1..];
      var after := SectionAfterLine(line, section);
      assert t == line + "\n" + rest;
      SpansCut(line, rest, at, section);
      LineMarks(line, at, section);
      BreakMarks(LineSpans(line, at, section), line, at);
      TextMarks(rest, at + n + 1, after);
      MarksConcat(LineSpans(line, at, section), line + "\n", Spans(rest, at + n + 1, after), rest, at);
    }
  }

  /** Every character but spaces, tabs and line breaks is in exactly one span, and the
      spans are in bounds, in order and on one line each. */
  lemma {:induction false} EachCharacterOnce(t: string)
    ensures var spans := Spans(t, 0, Invalid);
      Ordered(spans, 0, |t|)
      && (forall i :: 0 <= i < |t| && t[i] != ' ' && t[i] != '\t' && t[i] != '\n' ==>
            exists k :: 0 <= k < |spans| && In(spans[k], i))
      && (forall i: nat, j, k :: 0 <= j < |spans| && 0 <= k < |spans| && In(spans[j], i) && In(spans[k], i) ==> j == k)
      && (forall i: nat, k :: 0 <= k < |spans| && In(spans[k], i) ==> i < |t| && t[i] != '\n')
      && (forall k :: 0 <= k < |spans| ==> spans[k].kind != HighlightEnd)
  {
    hide Spans, Marks;
    var spans := Spans(t, 0, Invalid);
    TextMarks(t, 0, Invalid);
    MarksOrdered(spans, t, 0);
    forall i | 0 <= i < |t| && !Skipped(t[i])
      ensures exists k :: 0 <= k < |spans| && In(spans[k], i)
    {
      MarksCover(spans, t, 0, i);
    }
    forall i: nat, k | 0 <= k < |spans| && In(spans[k], i)
      ensures i < |t| && t[i] != '\n'
    {
      MarksOneLine(spans, t, 0, k, i);
    }
    forall k | 0 <= k < |spans|
      ensures spans[k].kind != HighlightEnd
    {
      MarksOneLine(spans, t, 0, k, spans[k].start);
    }
  }
}
