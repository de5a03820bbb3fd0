/** The port range compressor of PortExclusionConverter.py and its parser. */
module PortRanges {
  import opened Options
  import opened ConfigText

  //
  // Numbers
  //

  /** str of a natural number. */
  function Str(n: nat): (r: string)
    ensures r != "" && AllDecimal(r)
  {
    var digit := [(n % 10 + '0' as nat) as char];
    if n < 10 then digit else Str(n / 10) + digit
  }

  lemma {:induction false} StrValue(n: nat)
    ensures Decimal(Str(n)) == n
  {
    var s := Str(n);
    var digit := s[|s| - 1];
    if n < 10 {
      assert s[..0] == "";
    } else {
      StrValue(n / 10);
      assert s == Str(n / 10) + [digit] && s[..|s| - 1] == Str(n / 10);
    }
  }

  predicate Space(c: char) {
    c == ' ' || 9 <= c as int <= 13 || 28 <= c as int <= 31
  }

  function StripLeft(s: string): string {
    if s != "" && Space(s[0]) then StripLeft(s[1..]) else s
  }

  function StripRight(s: string): string {
    if s != "" && Space(s[|s| - 1]) then StripRight(s[..|s| - 1]) else s
  }

  /** Digits, with single underscores only between them. */
  predicate Grouped(s: string) {
    s != "" && IsDecimal(s[0]) && IsDecimal(s[|s| - 1])
    && forall i :: 0 <= i < |s| ==> IsDecimal(s[i]) || (s[i] == '_' && 0 < i && s[i - 1] != '_')
  }

  function Ungrouped(s: string): (r: string)
    ensures AllDecimal(r) && (AllDecimal(s) ==> r == s)
  {
    if s == "" then "" else (if IsDecimal(s[0]) then [s[0]] else "") + Ungrouped(s[1..])
  }

  /** int of a text without a minus sign: blanks around it, a plus sign before it and
      underscores between digits are allowed. */
  function Int(s: string): Option<nat> {
    var t := StripRight(StripLeft(s));
    var u := if t != "" && t[0] == '+' then t[1..] else t;
    if Grouped(u) then Some(Decimal(Ungrouped(u))) else None
  }

  lemma {:induction false} IntPlain(s: string)
    requires s != "" && AllDecimal(s)
    ensures Int(s) == Some(Decimal(s))
  {
    assert IsDecimal(s[0]) && IsDecimal(s[|s| - 1]);
    assert StripLeft(s) == s && StripRight(s) == s;
  }

  predicate AllSpace(s: string) {
    forall i :: 0 <= i < |s| ==> Space(s[i])
  }

  lemma {:induction false} BlanksBefore(pre: string, s: string)
    requires AllSpace(pre)
    ensures StripLeft(pre + s) == StripLeft(s)
  {
    if pre == "" {
      assert pre + s == s;
    } else {
      assert (pre + s)[1..] == pre[1..] + s;
      BlanksBefore(pre[1..], s);
    }
  }

  lemma {:induction false} BlanksBehind(s: string, post: string)
    requires AllSpace(post)
    ensures StripRight(s + post) == StripRight(s)
  {
    if post == "" {
      assert s + post == s;
    } else {
      var n := |post| - 1;
      assert (s + post)[..|s| + n] == s + post[..n];
      BlanksBehind(s, post[..n]);
    }
  }

  lemma {:induction false} StripKeeps(s: string, post: string)
    requires AllSpace(post)
    ensures StripLeft(s + post) == if StripLeft(s) == "" then "" else StripLeft(s) + post
  {
    if s == "" {
      assert s + post == post && post + "" == post;
      BlanksBefore(post, "");
    } else {
      assert (s + post)[1..] == s[1..] + post;
      if Space(s[0]) {
        StripKeeps(s[1..], post);
      }
    }
  }

  /** Blanks on either side make no difference. */
  lemma {:induction false} IntBlanks(pre: string, s: string, post: string)
    requires AllSpace(pre) && AllSpace(post)
    ensures Int(pre + s + post) == Int(s)
  {
    hide StripLeft, StripRight, Grouped, Ungrouped, AllSpace;
    assert pre + s + post == pre + (s + post);
    BlanksBefore(pre, s + post);
    StripKeeps(s, post);
    BlanksBehind(StripLeft(s), post);
  }

  lemma {:induction false} Unstripped(s: string)
    requires s != "" && !Space(s[0]) && !Space(s[|s| - 1])
    ensures StripRight(StripLeft(s)) == s
  {
  }

  /** A plus sign before the digits makes no difference. */
  lemma {:induction false} IntSigned(a: string)
    requires a != "" && AllDecimal(a)
    ensures Int("+" + a) == Some(Decimal(a))
  {
    var p := "+" + a;
    assert p[1..] == a && IsDecimal(a[0]) && IsDecimal(a[|a| - 1]);
    Unstripped(p);
    hide StripLeft, StripRight;
  }

  /** An underscore between the digits makes no difference. */
  lemma {:induction false} IntGrouped(a: string, b: string)
    requires a != "" && b != "" && AllDecimal(a) && AllDecimal(b)
    ensures AllDecimal(a + b) && Int(a + "_" + b) == Some(Decimal(a + b))
  {
    var u := a + "_" + b;
    assert IsDecimal(u[0]) && IsDecimal(u[|u| - 1]);
    Unstripped(u);
    UngroupedParts(a, b);
    hide StripLeft, StripRight, Ungrouped, Decimal;
    assert Grouped(u);
  }

  lemma {:induction false} UngroupedFirst(s: string)
    requires s != "" && IsDecimal(s[0])
    ensures Ungrouped(s) == [s[0]] + Ungrouped(s[1..])
  {
  }

  lemma {:induction false} UngroupedParts(a: string, b: string)
    requires AllDecimal(a) && AllDecimal(b)
    ensures Ungrouped(a + "_" + b) == a + b
  {
    var u := a + "_" + b;
    if a == "" {
      assert u[1..] == b && "" + b == b;
    } else {
      assert u[1..] == a[1..] + "_" + b;
      UngroupedFirst(u);
      hide Ungrouped;
      UngroupedParts(a[1..], b);
      assert [a[0]] + (a[1..] + b) == a + b;
    }
  }

  //
  // Reading
  //

  /** range(a, b + 1) */
  function Range(a: nat, b: nat): (r: seq<nat>)
    ensures |r| == if a <= b then b - a + 1 else 0
    ensures forall i :: 0 <= i < |r| ==> r[i] == a + i
    decreases b + 1 - a
  {
    if a > b then [] else [a] + Range(a + 1, b)
  }

  function ReadPart(part: string): Option<seq<nat>> {
    var k := Find(part, '-');
    if k == |part| then
      match Int(part) case None => None case Some(a) => Some([a])
    else if '-' in part[k + 1..] then None
    else
      match (Int(part[..k]), Int(part[k + 1..]))
      case (Some(a), Some(b)) => Some(Range(a, b))
      case _ => None
  }

  function Plus(a: Option<seq<nat>>, b: Option<seq<nat>>): Option<seq<nat>> {
    if a.Some? && b.Some? then Some(a.value + b.value) else None
  }

  /** The parts between commas, one after the other. */
  function ReadList(s: string): Option<seq<nat>>
    decreases |s|
  {
    var n := Find(s, ',');
    if n == |s| then ReadPart(s) else Plus(ReadPart(s[..n]), ReadList(s[n + 1..]))
  }

  lemma PlusAssociates(a: Option<seq<nat>>, b: Option<seq<nat>>, c: Option<seq<nat>>)
    ensures Plus(Plus(a, b), c) == Plus(a, Plus(b, c))
  {
    if a.Some? && b.Some? && c.Some? {
      assert a.value + b.value + c.value == a.value + (b.value + c.value);
    }
  }

  lemma PlusNothing(a: Option<seq<nat>>)
    ensures Plus(Some([]), a) == a
  {
    if a.Some? {
      assert [] + a.value == a.value;
    }
  }

  lemma {:induction false} ReadJoined(a: string, b: string)
    ensures ReadList(a + "," + b) == Plus(ReadList(a), ReadList(b))
    decreases |a|
  {
    hide ReadPart, Find;
    var s, n := a + "," + b, Find(a, ',');
    assert s[|a|] == ',';
    FindIs(s, ',', n);
    assert s[..n] == a[..n];
    if n == |a| {
      assert s[n + 1..] == b && a[..n] == a;
    } else {
      var rest := a[n + 1..];
      assert s[n + 1..] == rest + "," + b;
      ReadJoined(rest, b);
      PlusAssociates(ReadPart(a[..n]), ReadList(rest), ReadList(b));
    }
  }

  /** string_range_to_list; None when a part is not a number or a range. */
  method StringRangeToList(x: string) returns (result: Option<seq<nat>>)
    ensures result == ReadList(x)
  {
    hide ReadPart, Find;
    var list: seq<nat>, rest, more := [], x, true;
    PlusNothing(ReadList(x));
    while more
      invariant more ==> ReadList(x) == Plus(Some(list), ReadList(rest))
      invariant !more ==> ReadList(x) == Some(list)
      decreases more, |rest|
    {
      var n := Find(rest, ',');
      var part := ReadPart(rest[..n]);
      assert rest[..|rest|] == rest;
      if part.None? {
        return None;
      }
      if n < |rest| {
        PlusAssociates(Some(list), part, ReadList(rest[n + 1..]));
      }
      list := list + part.value;
      more := n < |rest|;
      rest := if more then rest[n + 1..] else "";
    }
    result := Some(list);
  }

  lemma {:induction false} ReadNumber(a: nat)
    ensures ReadList(Str(a)) == Some([a])
  {
    hide Str;
    hide Int;
    var s := Str(a);
    StrValue(a);
    IntPlain(s);
    FindIs(s, ',', |s|);
    FindIs(s, '-', |s|);
  }

  function RangeText(a: nat, b: nat): string {
    Str(a) + "-" + Str(b)
  }

  lemma {:induction false} ReadRange(a: nat, b: nat)
    ensures ReadList(RangeText(a, b)) == Some(Range(a, b))
  {
    hide Str, Find, Range, Int;
    var s, t := Str(a), Str(b);
    var r := s + "-" + t;
    StrValue(a);
    StrValue(b);
    IntPlain(s);
    IntPlain(t);
    FindIs(r, ',', |r|);
    FindIs(r, '-', |s|);
    assert r[..|s|] == s && r[|s| + 1..] == t;
  }

  //
  // Writing
  //

  function Spacing(l: seq<nat>, k: nat): int
    requires k + 1 < |l|
  {
    l[k + 1] as int - l[k]
  }

  /** The first position from i on behind which the spacing changes, or the last. */
  function RunEnd(l: seq<nat>, i: nat): (e: nat)
    requires 1 <= i < |l|
    ensures i <= e < |l| && (forall k :: i <= k < e ==> Spacing(l, k) == Spacing(l, 0))
    ensures e + 1 < |l| ==> Spacing(l, e) != Spacing(l, 0)
    decreases |l| - i
  {
    if i + 1 == |l| || Spacing(l, i) != Spacing(l, 0) then i else RunEnd(l, i + 1)
  }

  /** helper: the text of the first numbers, and the numbers that are left. */
  function Helper(l: seq<nat>): (r: (string, seq<nat>))
    requires l != []
    ensures |r.1| < |l| && r.1 == l[|l| - |r.1|..]
  {
    if |l| == 1 then (Str(l[0]), [])
    else if |l| == 2 then (Str(l[0]) + "," + Str(l[1]), [])
    else
      var e := RunEnd(l, 1);
      if e > 1 then (RangeText(l[0], l[e]), l[e + 1..]) else (Str(l[0]), l[1..])
  }

  /** The texts of all numbers with commas between them. */
  function ReRangeText(l: seq<nat>): string
    decreases |l|
  {
    if l == [] then ""
    else
      var (text, rest) := Helper(l);
      if rest == [] then text else text + "," + ReRangeText(rest)
  }

  /** ','.join */
  function Join(parts: seq<string>): string {
    if parts == [] then ""
    else if |parts| == 1 then parts[0]
    else Join(parts[..|parts| - 1]) + "," + parts[|parts| - 1]
  }

  lemma {:induction false} JoinSnoc(parts: seq<string>, p: string)
    ensures Join(parts + [p]) == if parts == [] then p else Join(parts) + "," + p
  {
    assert (parts + [p])[..|parts|] == parts;
  }

  /** What is still to come behind the joined parts. */
  function With(parts: seq<string>, l: seq<nat>): string {
    if l == [] then Join(parts)
    else if parts == [] then ReRangeText(l)
    else Join(parts) + "," + ReRangeText(l)
  }

  lemma WithNext(parts: seq<string>, l: seq<nat>)
    requires l != []
    ensures With(parts + [Helper(l).0], Helper(l).1) == With(parts, l)
  {
    hide Helper, Join;
    var (text, rest) := Helper(l);
    JoinSnoc(parts, text);
    if parts != [] && rest != [] {
      var a, b := Join(parts), ReRangeText(rest);
      assert a + "," + (text + "," + b) == a + "," + text + "," + b;
    }
  }

  /** re_range; every turn leaves a shorter list. */
  method ReRange(l: seq<nat>) returns (text: string)
    ensures text == ReRangeText(l)
  {
    hide Helper, ReRangeText, Join;
    var result: seq<string>, rest := [], l;
    NothingYet(l);
    while rest != []
      invariant With(result, rest) == ReRangeText(l)
      decreases |rest|
    {
      WithNext(result, rest);
      var (partial, left) := Helper(rest);
      result, rest := result + [partial], left;
    }
    text := Join(result);
  }

  lemma {:induction false} NothingYet(l: seq<nat>)
    ensures With([], l) == ReRangeText(l)
  {
  }

  //
  // Reading what was written
  //

  /** Every range that is written has spacing one, so that dropping the step loses nothing. */
  predicate StepsOne(l: seq<nat>)
    decreases |l|
  {
    if |l| <= 2 then true
    else
      var e := RunEnd(l, 1);
      if e > 1 then Spacing(l, 0) == 1 && StepsOne(l[e + 1..]) else StepsOne(l[1..])
  }

  lemma {:induction false} RunIsRange(l: seq<nat>, e: nat)
    requires 1 <= e < |l| && Spacing(l, 0) == 1 && forall k :: 1 <= k < e ==> Spacing(l, k) == 1
    ensures l[0] <= l[e] && Range(l[0], l[e]) == l[..e + 1]
  {
    hide Range;
    Arithmetic(l, e, 1);
    var r := Range(l[0], l[e]);
    forall k | 0 <= k < |r|
      ensures k <= e && r[k] == l[k]
    {
      Arithmetic(l, k, 1);
    }
  }

  lemma {:induction false} Arithmetic(l: seq<nat>, e: nat, d: int)
    requires 0 <= e < |l| && (|l| > 1 ==> Spacing(l, 0) == d) && forall k :: 1 <= k < e ==> Spacing(l, k) == d
    ensures l[e] == l[0] + e * d
  {
    if e > 0 {
      Arithmetic(l, e - 1, d);
      assert Spacing(l, e - 1) == d;
      assert e * d == (e - 1) * d + d;
    }
  }

  /** What is read of a first text that is right. */
  lemma {:induction false} FirstRead(l: seq<nat>)
    requires l != [] && (|l| > 2 && RunEnd(l, 1) > 1 ==> Spacing(l, 0) == 1)
    ensures ReadList(Helper(l).0) == Some(l[..|l| - |Helper(l).1|])
  {
    hide ReadList, Str, Range;
    if |l| == 1 {
      ReadNumber(l[0]);
      assert l[..1] == [l[0]];
    } else if |l| == 2 {
      ReadJoined(Str(l[0]), Str(l[1]));
      ReadNumber(l[0]);
      ReadNumber(l[1]);
      assert l[..2] == [l[0]] + [l[1]];
    } else if RunEnd(l, 1) > 1 {
      ReadRange(l[0], l[RunEnd(l, 1)]);
      RunIsRange(l, RunEnd(l, 1));
    } else {
      ReadNumber(l[0]);
      assert l[..1] == [l[0]];
    }
  }

  lemma {:induction false} StepsOneNext(l: seq<nat>)
    requires l != [] && StepsOne(l)
    ensures |l| > 2 && RunEnd(l, 1) > 1 ==> Spacing(l, 0) == 1
    ensures Helper(l).1 != [] ==> StepsOne(Helper(l).1)
  {
    hide Str;
  }

  /** Reading undoes writing. */
  lemma {:induction false} RoundTrip(l: seq<nat>)
    requires l != [] && StepsOne(l)
    ensures ReadList(ReRangeText(l)) == Some(l)
    decreases |l|
  {
    hide Helper, ReadList;
    var (text, rest) := Helper(l);
    StepsOneNext(l);
    FirstRead(l);
    assert l == l[..|l| - |rest|] + rest && l[..|l|] == l;
    if rest != [] {
      RoundTrip(rest);
      ReadJoined(text, ReRangeText(rest));
    }
  }

  /** Three numbers in a row that are equally spaced are consecutive. */
  predicate TriplesConsecutive(l: seq<nat>) {
    forall k :: 0 <= k && k + 2 < |l| && Spacing(l, k) == Spacing(l, k + 1) ==> Spacing(l, k) == 1
  }

  /** That is enough, whatever the order of the numbers. */
  lemma {:induction false} TriplesStepsOne(l: seq<nat>)
    requires TriplesConsecutive(l)
    ensures StepsOne(l)
    decreases |l|
  {
    if |l| > 2 {
      var e := RunEnd(l, 1);
      assert e > 1 ==> Spacing(l, 1) == Spacing(l, 0);
      var rest := if e > 1 then l[e + 1..] else l[1..];
      var d := |l| - |rest|;
      assert forall k :: 0 <= k < |rest| ==> rest[k] == l[k + d];
      assert forall k :: 0 <= k && k + 1 < |rest| ==> Spacing(rest, k) == Spacing(l, k + d);
      TriplesStepsOne(rest);
    }
  }

  predicate Increasing(l: seq<nat>) {
    forall k :: 0 < k < |l| ==> l[k - 1] < l[k]
  }

  /** The empty list is not read back: its text has one part that is no number. */
  lemma EmptyFails()
    ensures ReadList(ReRangeText([])) == None
  {
  }

  /** An increasing list, as the script has it, is read back exactly when it is not
      empty and every written range has spacing one. */
  lemma {:induction false} RoundTripExactly(l: seq<nat>)
    requires Increasing(l)
    ensures ReadList(ReRangeText(l)) == Some(l) <==> l != [] && StepsOne(l)
    decreases |l|
  {
    hide ReadList, Str;
    if l == [] {
      EmptyFails();
    } else if StepsOne(l) {
      RoundTrip(l);
    } else {
      FailsToRead(l);
    }
  }

  lemma {:induction false} FailsToRead(l: seq<nat>)
    requires Increasing(l) && !StepsOne(l)
    ensures ReadList(ReRangeText(l)) != Some(l)
    decreases |l|
  {
    hide ReadList, Str, Range, Helper, StepsOne;
    FailsSomewhere(l);
    var (text, rest) := Helper(l);
    if rest != [] {
      ReadJoined(text, ReRangeText(rest));
    }
    if Wide(l) {
      WrongRange(l);
      var all := ReadList(ReRangeText(l));
      assert all.Some? ==> all.value[1] != l[1];
    } else {
      TailIncreasing(l, |l| - |rest|);
      FailsToRead(rest);
      FirstRead(l);
      assert l == l[..|l| - |rest|] + rest;
    }
  }

  /** The first text is a range of spacing other than one. */
  predicate Wide(l: seq<nat>) {
    |l| > 2 && RunEnd(l, 1) > 1 && Spacing(l, 0) != 1
  }

  lemma {:induction false} FailsSomewhere(l: seq<nat>)
    requires !StepsOne(l)
    ensures l != [] && (Wide(l) || (Helper(l).1 != [] && !StepsOne(Helper(l).1)))
  {
    hide Str;
  }

  lemma TailIncreasing(l: seq<nat>, d: nat)
    requires Increasing(l) && d <= |l|
    ensures Increasing(l[d..])
  {
    assert forall k :: 0 <= k < |l| - d ==> l[d..][k] == l[k + d];
  }

  /** A range of larger spacing is read as more numbers than it had. */
  lemma WrongRange(l: seq<nat>)
    requires Increasing(l) && Wide(l)
    ensures var r := ReadList(Helper(l).0); r.Some? && |r.value| > 1 && r.value[1] != l[1]
  {
    hide ReadList, Str, Range;
    var e := RunEnd(l, 1);
    assert l[0] < l[1] && l[1] < l[2];
    Ascending(l, 1, e);
    ReadRange(l[0], l[e]);
  }

  lemma {:induction false} Ascending(l: seq<nat>, i: nat, j: nat)
    requires Increasing(l) && i <= j < |l|
    ensures l[i] <= l[j]
    decreases j - i
  {
    if i < j {
      Ascending(l, i, j - 1);
    }
  }

  /** Even numbers, for instance, are not read back. */
  lemma StepIsLost()
    ensures ReadList(ReRangeText([2, 4, 6])) == Some([2, 3, 4, 5, 6])
  {
    hide ReadList, Str, Range;
    assert RunEnd([2, 4, 6], 1) == 2;
    ReadRange(2, 6);
    var r := Range(2, 6);
    assert r == [2, 3, 4, 5, 6];
  }
}
