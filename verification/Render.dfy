/** The main loop of highlight.c: the text with escape codes around the spans. */
module Render {
  import opened ConfigText
  import opened Highlighting
  import opened Coverage
  import opened Highlighter

  /** What is written: text, the colour of a kind of span, or the code that ends all colours. */
  datatype Output = Text(t: string) | Colour(kind: Kind) | Reset

  datatype Shade = Bare | Shaded(kind: Kind)

  /** A character as it appears on the terminal. */
  datatype Cell = Cell(c: char, shade: Shade)

  function Cells(t: string, shade: Shade): (r: seq<Cell>)
    ensures |r| == |t|
  {
    seq(|t|, i requires 0 <= i < |t| => Cell(t[i], shade))
  }

  /** What a terminal makes of the output: the characters, and the shade for what comes next. */
  function Screen(out: seq<Output>): (seq<Cell>, Shade) {
    if out == [] then ([], Bare)
    else
      var (cells, shade) := Screen(out[..|out| - 1]);
      match out[|out| - 1]
      case Text(t) => (cells + Cells(t, shade), shade)
      case Colour(kind) => (cells, Shaded(kind))
      case Reset => (cells, Bare)
  }

  lemma {:induction false} ScreenSnoc(out: seq<Output>, o: Output)
    ensures Screen(out + [o]) == var (cells, shade) := Screen(out);
                                 match o
                                 case Text(t) => (cells + Cells(t, shade), shade)
                                 case Colour(kind) => (cells, Shaded(kind))
                                 case Reset => (cells, Bare)
  {
    assert (out + [o])[..|out|] == out;
  }

  /** The shade of the span that a position is in. */
  function ShadeAt(spans: seq<Span>, i: nat): Shade {
    if spans == [] then Bare else if In(spans[0], i) then Shaded(spans[0].kind) else ShadeAt(spans[1..], i)
  }

  lemma {:induction false} ShadeInside(spans: seq<Span>, lo: nat, hi: nat, k: nat, i: nat)
    requires Ordered(spans, lo, hi) && k < |spans| && In(spans[k], i)
    ensures ShadeAt(spans, i) == Shaded(spans[k].kind)
  {
    if k > 0 {
      assert spans[0].start + spans[0].len <= spans[k].start;
      var rest := spans[1..];
      assert forall j :: 0 <= j < |rest| ==> rest[j] == spans[j + 1];
      ShadeInside(rest, lo, hi, k - 1, i);
    }
  }

  lemma {:induction false} ShadeOutside(spans: seq<Span>, i: nat)
    requires forall k :: 0 <= k < |spans| ==> !In(spans[k], i)
    ensures ShadeAt(spans, i) == Bare
  {
    if spans != [] {
      ShadeOutside(spans[1..], i);
    }
  }

  /** Every character of the input, in the shade of its span. */
  function Painted(input: string, spans: seq<Span>): (r: seq<Cell>)
    ensures |r| == |input|
  {
    seq(|input|, i requires 0 <= i < |input| => Cell(input[i], ShadeAt(spans, i)))
  }

  /** Where the span before number k ends. */
  function EndBefore(spans: seq<Span>, k: nat): nat
    requires k <= |spans|
  {
    if k == 0 then 0 else spans[k - 1].start + spans[k - 1].len
  }

  /** Between two spans nothing is shaded. */
  lemma GapPainted(input: string, spans: seq<Span>, k: nat, to: nat)
    requires Ordered(spans, 0, |input|) && k <= |spans| && EndBefore(spans, k) <= to <= |input|
    requires k < |spans| ==> to <= spans[k].start
    ensures Painted(input, spans)[EndBefore(spans, k)..to] == Cells(input[EndBefore(spans, k)..to], Bare)
  {
    var last := EndBefore(spans, k);
    forall i | last <= i < to
      ensures ShadeAt(spans, i) == Bare
    {
      forall j | 0 <= j < |spans|
        ensures !In(spans[j], i)
      {
        assert j < k - 1 ==> spans[j].start + spans[j].len <= spans[k - 1].start;
        assert k < j ==> spans[k].start + spans[k].len <= spans[j].start;
      }
      ShadeOutside(spans, i);
    }
    PaintedEvenly(input, spans, last, to, Bare);
  }

  /** A stretch of one shade. */
  lemma {:induction false} PaintedEvenly(input: string, spans: seq<Span>, from: nat, to: nat, shade: Shade)
    requires from <= to <= |input| && forall i :: from <= i < to ==> ShadeAt(spans, i) == shade
    ensures Painted(input, spans)[from..to] == Cells(input[from..to], shade)
  {
    hide ShadeAt;
    var all := Painted(input, spans);
    var a, b := all[from..to], Cells(input[from..to], shade);
    forall i | 0 <= i < to - from
      ensures a[i] == b[i]
    {
      assert all[from + i] == Cell(input[from + i], ShadeAt(spans, from + i));
    }
  }

  lemma SpanPainted(input: string, spans: seq<Span>, k: nat)
    requires Ordered(spans, 0, |input|) && k < |spans|
    ensures var from, to := spans[k].start, spans[k].start + spans[k].len;
      Painted(input, spans)[from..to] == Cells(input[from..to], Shaded(spans[k].kind))
  {
    var from, to := spans[k].start, spans[k].start + spans[k].len;
    forall i | from <= i < to
      ensures ShadeAt(spans, i) == Shaded(spans[k].kind)
    {
      ShadeInside(spans, 0, |input|, k, i);
    }
    PaintedEvenly(input, spans, from, to, Shaded(spans[k].kind));
  }

  lemma OrderedStep(spans: seq<Span>, hi: nat, k: nat)
    requires Ordered(spans, 0, hi) && k < |spans|
    ensures EndBefore(spans, k) <= spans[k].start && spans[k].start + spans[k].len <= hi
  {
  }

  /** One turn of the loop: the text before a span, its colour, the span, and a reset. */
  method ShowSpan(input: string, span: Span, last: nat, out0: seq<Output>, ghost spans: seq<Span>, ghost k: nat)
    returns (out: seq<Output>)
    requires Ordered(spans, 0, |input|) && k < |spans| && span == spans[k] && last == EndBefore(spans, k)
    requires last <= |input| && Screen(out0) == (Painted(input, spans)[..last], Bare)
    ensures span.start + span.len <= |input| && Screen(out) == (Painted(input, spans)[..span.start + span.len], Bare)
  {
    hide Screen, Painted, Ordered, Cells, EndBefore;
    OrderedStep(spans, |input|, k);
    var end := span.start + span.len;
    ghost var all := Painted(input, spans);
    out := out0 + [Text(input[last..span.start])];
    ScreenSnoc(out0, Text(input[last..span.start]));
    GapPainted(input, spans, k, span.start);
    assert all[..last] + all[last..span.start] == all[..span.start];
    ScreenSnoc(out, Colour(span.kind));
    out := out + [Colour(span.kind)];
    ScreenSnoc(out, Text(input[span.start..end]));
    out := out + [Text(input[span.start..end])];
    SpanPainted(input, spans, k);
    assert all[..span.start] + all[span.start..end] == all[..end];
    ScreenSnoc(out, Reset);
    out := out + [Reset];
  }

  /** main: the terminal shows the input unchanged, each character in the shade of
      its span. Highlighting stops at a NUL character; what is behind it stays bare. */
  method Highlight(input: string) returns (out: seq<Output>)
    ensures Screen(out) == (Painted(input, Spans(input[..Find(input, '\0')], 0, Invalid)), Bare)
  {
    hide Spans, Painted, Ordered, Screen, Find, In;
    var config := input[..Find(input, '\0')];
    var spans := HighlightConfig(config);
    ghost var marks := Spans(config, 0, Invalid);
    EachCharacterOnce(config);
    OrderedWider(marks, |config|, |input|);
    out := [Reset];
    var last, k := 0, 0;
    ResetScreen(input, marks);
    while spans[k].kind != HighlightEnd
      invariant 0 <= k <= |marks| && last == EndBefore(marks, k) && last <= |input|
      invariant Screen(out) == (Painted(input, marks)[..last], Bare)
      decreases |marks| - k
    {
      assert spans[k] == marks[k];
      out := ShowSpan(input, spans[k], last, out, marks, k);
      last := spans[k].start + spans[k].len;
      k := k + 1;
    }
    out := ShowRest(input, last, out, marks, k);
  }

  /** The text behind the last span. */
  method ShowRest(input: string, last: nat, out0: seq<Output>, ghost spans: seq<Span>, ghost k: nat)
    returns (out: seq<Output>)
    requires Ordered(spans, 0, |input|) && k == |spans| && last == EndBefore(spans, k) <= |input|
    requires Screen(out0) == (Painted(input, spans)[..last], Bare)
    ensures Screen(out) == (Painted(input, spans), Bare)
  {
    hide Screen, Painted, Ordered, Cells, EndBefore;
    ghost var n, all := |input|, Painted(input, spans);
    out := out0 + [Text(input[last..])];
    ScreenSnoc(out0, Text(input[last..]));
    GapPainted(input, spans, k, n);
    assert input[last..] == input[last..n];
    assert all == all[..last] + all[last..n];
  }

  lemma ResetScreen(input: string, spans: seq<Span>)
    ensures Screen([Reset]) == (Painted(input, spans)[..0], Bare)
  {
    ScreenSnoc([], Reset);
    assert [] + [Reset] == [Reset];
  }

  lemma OrderedWider(spans: seq<Span>, n: nat, hi: nat)
    requires Ordered(spans, 0, n) && n <= hi
    ensures Ordered(spans, 0, hi)
  {
  }
}
