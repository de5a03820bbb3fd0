/** The address validators of highlighter.c, character loops that are proved to
    accept exactly the grammars. A span may be followed by any text: the loops
    read the byte behind it. */
module Addresses {
  import opened ConfigText

  /** Reading a NUL-terminated text. */
  function At(s: string, i: nat): char
    requires i <= |s|
  {
    if i < |s| then s[i] else '\0'
  }

  //
  // IPv4
  //

  /** The decimal digits at the start of u, at most three. */
  predicate Digits(u: string, j: nat) {
    j <= 3 && j <= |u| && AllDecimal(u[..j]) && (j == 3 || j == |u| || !IsDecimal(u[j]))
  }

  lemma {:induction false} OctetRun(u: string, j: nat)
    requires Digits(u, j) && Octet(u[..Find(u, '.')])
    ensures Find(u, '.') == j
  {
    var k := Find(u, '.');
    assert forall i :: 0 <= i < k ==> u[..k][i] == u[i];
    assert forall i :: 0 <= i < j ==> u[..j][i] == u[i];
  }

  /** The digits at the start of u decide its first octet. */
  lemma OctetsStep(u: string, j: nat, n: nat)
    requires Digits(u, j)
    ensures !Octet(u[..j]) ==> !Octets(u, n)
    ensures Octet(u[..j]) && j == |u| ==> (Octets(u, n) <==> n == 1)
    ensures Octet(u[..j]) && j < |u| && u[j] != '.' ==> !Octets(u, n)
    ensures Octet(u[..j]) && j < |u| && u[j] == '.' ==> (Octets(u, n) <==> n > 0 && Octets(u[j + 1..], n - 1))
  {
    var k := Find(u, '.');
    if Octet(u[..k]) {
      OctetRun(u, j);
    }
    assert forall i :: 0 <= i < j ==> u[..j][i] == u[i];
    if j == |u| || u[j] == '.' {
      FindIs(u, '.', j);
    }
  }

  lemma OctetIs(u: string, j: nat)
    requires Digits(u, j)
    ensures Octet(u[..j]) <==> j > 0 && !(j > 1 && u[0] == '0') && Decimal(u[..j]) <= 255
  {
    if j > 0 {
      assert u[..j][0] == u[0];
    }
  }

  lemma NoDigits()
    ensures Decimal("") == 0
  {
  }

  lemma {:induction false} DecimalSnoc(t: string, c: char)
    requires AllDecimal(t) && IsDecimal(c)
    ensures AllDecimal(t + [c]) && Decimal(t + [c]) == 10 * Decimal(t) + Digit(c)
  {
    assert (t + [c])[..|t|] == t;
  }

  /** Up to three decimal digits and their value. */
  method DecimalRun(s: string, at: nat, end: nat) returns (j: nat, val: nat)
    requires at <= end <= |s|
    ensures Digits(s[at..end], j) && val == Decimal(s[at..end][..j]) < 1000
  {
    hide Decimal;
    ghost var u := s[at..end];
    j, val := 0, 0;
    assert u[..0] == "" && Decimal("") == 0 by {
      NoDigits();
    }
    while j < 3 && at + j < end && IsDecimal(s[at + j])
      invariant j <= 3 && at + j <= end && AllDecimal(u[..j]) && val == Decimal(u[..j])
      invariant val < if j == 0 then 1 else if j == 1 then 10 else if j == 2 then 100 else 1000
    {
      assert u[..j + 1] == u[..j] + [u[j]] && u[j] == s[at + j];
      DecimalSnoc(u[..j], u[j]);
      val := 10 * val + Digit(s[at + j]);
      j := j + 1;
    }
  }

  /** is_valid_ipv4 accepts exactly four octets with dots between them, whatever
      byte follows the span. */
  method IsValidIpv4(s: string, off: nat, len: nat) returns (ok: bool)
    requires off + len <= |s|
    ensures ok <==> IPv4(s[off..off + len])
  {
    ok := IsValidOctets(s, off, off + len, 4);
  }

  lemma {:induction false} NoOctets(u: string, n: nat)
    requires u == "" || n == 0
    ensures !Octets(u, n)
  {
  }

  /** One octet at the start of what is left, and what its end says about the rest. */
  method ReadOctet(s: string, pos: nat, end: nat, ghost n: nat) returns (good: bool, j: nat)
    requires pos < end <= |s|
    ensures pos + j <= end
    ensures !good ==> !Octets(s[pos..end], n)
    ensures good && pos + j == end ==> (Octets(s[pos..end], n) <==> n == 1)
    ensures good && pos + j < end && s[pos + j] != '.' ==> !Octets(s[pos..end], n)
    ensures good && pos + j < end && s[pos + j] == '.' ==>
      (Octets(s[pos..end], n) <==> n > 0 && Octets(s[pos + j + 1..end], n - 1))
  {
    var val;
    j, val := DecimalRun(s, pos, end);
    ghost var u := s[pos..end];
    OctetIs(u, j);
    OctetsStep(u, j, n);
    good := !(j == 0 || (j > 1 && s[pos] == '0') || val > 255);
    assert j < |u| ==> u[j + 1..] == s[pos + j + 1..end];
  }

  /** The loop of is_valid_ipv4 for any number of octets. */
  method IsValidOctets(s: string, off: nat, end: nat, n: nat) returns (ok: bool)
    requires off <= end <= |s|
    ensures ok <==> Octets(s[off..end], n)
  {
    hide Octets;
    var i, pos := 0, off;
    while i < n && pos < end
      invariant 0 <= i <= n && off <= pos <= end + 1
      invariant Octets(s[off..end], n) <==> pos <= end && Octets(s[pos..end], n - i)
    {
      var good, j := ReadOctet(s, pos, end, n - i);
      if !good {
        return false;
      }
      if pos + j == end && i == n - 1 {
        return true;
      }
      if At(s, pos + j) != '.' {
        return false;
      }
      i, pos := i + 1, pos + j + 1;
    }
    if pos <= end {
      NoOctets(s[pos..end], n - i);
    }
    ok := false;
  }

  //
  // IPv6
  //

  lemma {:induction false} OctetsPlain(t: string, n: nat, i: nat)
    requires Octets(t, n) && i < |t|
    ensures IsDecimal(t[i]) || t[i] == '.'
    decreases |t|
  {
    var k := Find(t, '.');
    if i < k {
      assert t[..k][i] == t[i];
    } else if i > k {
      OctetsPlain(t[k + 1..], n - 1, i - (k + 1));
    }
  }

  /** The hexadecimal digits at the start of u: what follows them decides. */
  predicate Run(u: string, j: nat) {
    j <= 4 && j <= |u| && AllHexadecimal(u[..j]) && (j == 4 || j == |u| || !IsHexadecimal(u[j]))
  }

  lemma GroupRun(u: string, j: nat, k: nat)
    requires Run(u, j) && k <= |u| && Group(u[..k]) && (k < |u| ==> u[k] == ':')
    ensures j == k
  {
    assert forall i :: 0 <= i < k ==> u[..k][i] == u[i];
    assert forall i :: 0 <= i < j ==> u[..j][i] == u[i];
    assert k < j ==> IsHexadecimal(u[k]);
  }

  lemma {:induction false} QuadRun(u: string, j: nat)
    requires Run(u, j) && IPv4(u)
    ensures j > 0 && j < |u| && u[j] == '.' && Find(u, ':') == |u|
  {
    var k := Find(u, '.');
    assert forall i :: 0 <= i < k ==> u[..k][i] == u[i];
    assert forall i :: 0 <= i < j ==> u[..j][i] == u[i];
    assert k < j ==> IsHexadecimal(u[k]);
    var c := Find(u, ':');
    if c < |u| {
      OctetsPlain(u, 4, c);
    }
  }

  /** The first piece of u decides its width. */
  lemma {:induction false} WidthStep(u: string, j: nat, quad: bool)
    requires Run(u, j)
    ensures j == 0 ==> Width(u, quad) == 0
    ensures 0 < j == |u| ==> Width(u, quad) == 1
    ensures 0 < j < |u| && u[j] == ':' ==>
      Width(u, quad) == if Width(u[j + 1..], quad) > 0 then 1 + Width(u[j + 1..], quad) else 0
    ensures 0 < j < |u| && u[j] == '.' ==> Width(u, quad) == if quad && IPv4(u) then 2 else 0
    ensures 0 < j < |u| && u[j] != ':' && u[j] != '.' ==> Width(u, quad) == 0
  {
    assert u[..|u|] == u;
    if 0 < j && (j == |u| || u[j] == ':') {
      GroupFirst(u, j);
    } else {
      var k := Find(u, ':');
      if Group(u[..k]) {
        GroupRun(u, j, k);
      }
      if IPv4(u) {
        QuadRun(u, j);
      }
    }
  }

  lemma {:induction false} GroupFirst(u: string, j: nat)
    requires Run(u, j) && 0 < j && (j == |u| || u[j] == ':')
    ensures Find(u, ':') == j && Group(u[..j])
  {
    assert forall i :: 0 <= i < j ==> u[..j][i] == u[i];
    FindIs(u, ':', j);
  }

  /** The part of u before a gap. */
  lemma PrefixRun(u: string, j: nat, g: nat)
    requires Run(u, j) && g < |u| && u[g] == ':'
    ensures j <= g && Run(u[..g], j)
  {
    assert forall i :: 0 <= i < j ==> u[..j][i] == u[i];
    assert j <= g;
    assert u[..g][..j] == u[..j];
  }

  lemma GapTail(u: string, j: nat)
    requires 0 < j < |u| && u[j] == ':' && forall i :: 0 <= i < j ==> u[i] != ':'
    ensures var rest := u[j + 1..];
      Gap(u) == if rest != "" && rest[0] == ':' then j else j + 1 + Gap(rest)
  {
    var rest := u[j + 1..];
    var g, h := Gap(u), Gap(rest);
    assert g < |u| ==> g >= j;
    if rest != "" && rest[0] == ':' {
      assert g <= j;
    } else {
      assert g == |u| || g > j;
      assert forall i :: 0 <= i < |rest| ==> rest[i] == u[j + 1 + i];
      if g < |u| {
        assert rest[g - (j + 1)] == ':' && rest[g - (j + 1) + 1] == ':';
        assert h <= g - (j + 1);
      }
      if h < |rest| {
        assert u[j + 1 + h] == ':' && u[j + 1 + h + 1] == ':';
      }
    }
  }

  /** What must follow a group and its colon, or the first colon of a leading gap. */
  predicate AfterColon(t: string, n: nat) {
    if t != "" && t[0] == ':' then Part(t[1..], true) && n + Width(t[1..], true) <= 7 else IPv6From(t, n)
  }

  /** A group and a colon are read. */
  lemma GroupRead(u: string, j: nat, n: nat)
    requires Run(u, j) && 0 < j < |u| && u[j] == ':'
    ensures IPv6From(u, n) <==> AfterColon(u[j + 1..], n + 1)
  {
    hide Width, Run, Gap;
    var rest, g := u[j + 1..], Gap(u);
    assert forall i :: 0 <= i < j ==> u[i] != ':' by {
      GroupFirst(u, j);
    }
    GapTail(u, j);
    WidthStep(u, j, true);
    if g < |u| {
      PrefixRun(u, j, g);
      WidthStep(u[..g], j, false);
      if g == j {
        assert u[g + 2..] == rest[1..];
      } else {
        GapPieces(u, j, Gap(rest));
      }
    }
  }

  lemma GapPieces(u: string, j: nat, h: nat)
    requires j + 1 + h + 2 <= |u|
    ensures u[..j + 1 + h][j + 1..] == u[j + 1..][..h] && u[j + 1 + h + 2..] == u[j + 1..][h + 2..]
  {
  }

  /** Without a colon behind its first digits, u is the end of an address or none. */
  lemma LastPiece(u: string, j: nat, n: nat)
    requires Run(u, j) && n <= 7 && (j < |u| ==> u[j] != ':')
    ensures IPv6From(u, n) <==> if j == |u| then j > 0 && n == 7 else n == 6 && IPv4(u)
  {
    var g := Gap(u);
    WidthStep(u, j, true);
    if IPv4(u) {
      QuadRun(u, j);
    }
    if g < |u| {
      PrefixRun(u, j, g);
      WidthStep(u[..g], j, false);
      if j < g && u[j] == '.' {
        assert u[..g][j] == '.';
      }
      assert g > 0 ==> !Part(u[..g], false);
    }
  }

  lemma {:induction false} NothingFits(u: string, j: nat)
    requires Run(u, j) && u != "" && u[0] != ':' && j < |u|
    ensures !IPv6From(u, 7) && Width(u, true) != 1
  {
    WidthStep(u, j, true);
    var g := Gap(u);
    if g < |u| {
      PrefixRun(u, j, g);
      assert u[..g] != "";
    }
  }

  lemma {:induction false} EndsInColon(t: string, quad: bool)
    requires t != "" && t[|t| - 1] == ':'
    ensures Width(t, quad) == 0
    decreases |t|
  {
    var k := Find(t, ':');
    if k + 1 < |t| {
      EndsInColon(t[k + 1..], quad);
    }
  }

  lemma TooShort(t: string)
    requires |t| < 2
    ensures !IPv6(t)
  {
  }

  lemma SingleColons(t: string)
    requires |t| >= 2
    ensures (t[0] == ':' && t[1] != ':') || (t[|t| - 1] == ':' && t[|t| - 2] != ':') ==> !IPv6(t)
  {
    hide Width;
    var g := Gap(t);
    if t[0] == ':' && t[1] != ':' {
      WidthStep(t, 0, true);
      if g < |t| {
        WidthStep(t[..g], 0, false);
      }
    } else if t[|t| - 1] == ':' && t[|t| - 2] != ':' {
      EndsInColon(t, true);
      if g < |t| {
        EndsInColon(t[g + 2..], true);
      }
    }
  }

  /** Up to four hexadecimal digits. */
  method HexRun(s: string, at: nat, end: nat) returns (j: nat)
    requires at <= end <= |s|
    ensures at + j <= end && Run(s[at..end], j) && (j > 0 ==> s[at + j - 1] != ':')
  {
    ghost var u := s[at..end];
    j := 0;
    while j < 4 && at + j < end && IsHexadecimal(s[at + j])
      invariant j <= 4 && at + j <= end && AllHexadecimal(u[..j])
      invariant j > 0 ==> s[at + j - 1] != ':'
    {
      assert u[..j + 1] == u[..j] + [u[j]];
      j := j + 1;
    }
  }

  /** What must be left to read once i groups, or one less and a gap, are read. */
  predicate Left(u: string, i: nat, seen: bool) {
    if seen then 0 < Width(u, true) <= 8 - i else AfterColon(u, i)
  }

  lemma LeftAtStart(t: string)
    requires |t| >= 2 && (t[0] == ':' ==> t[1] == ':')
    ensures IPv6(t) <==> Left(if t[0] == ':' then t[1..] else t, 0, false)
  {
    if t[0] == ':' {
      assert t[1..][1..] == t[2..] && t[..0] == "";
    }
  }

  /** The second colon of a gap. */
  lemma LeftAtGap(u: string, i: nat)
    requires u != "" && u[0] == ':' && i <= 7
    ensures Left(u, i, false) <==> u[1..] == "" || (i < 7 && Left(u[1..], i + 1, true))
  {
  }

  lemma LeftAtGroup(u: string, i: nat, seen: bool, j: nat)
    requires u != "" && Run(u, j) && i <= 7 && (seen || u[0] != ':')
    ensures j == 0 ==> !Left(u, i, seen)
    ensures 0 < j == |u| ==> (Left(u, i, seen) <==> seen || i == 7)
    ensures j < |u| && i == 7 ==> !Left(u, i, seen)
    ensures 0 < j < |u| && u[j] == ':' ==> (Left(u, i, seen) <==> i < 7 && Left(u[j + 1..], i + 1, seen))
    ensures 0 < j < |u| && u[j] != ':' ==>
      (Left(u, i, seen) <==> i < 7 && (seen || i == 6) && u[j] == '.' && IPv4(u))
  {
    WidthStep(u, j, true);
    if j < |u| && u[0] != ':' {
      NothingFits(u, j);
    }
    if j < |u| && u[j] == ':' {
      if j > 0 {
        GroupRead(u, j, i);
      }
    } else {
      LastPiece(u, j, i);
      if IPv4(u) {
        QuadRun(u, j);
      }
    }
  }

  lemma NoQuad(u: string, j: nat)
    requires Run(u, j) && j == |u|
    ensures !IPv4(u)
  {
    if IPv4(u) {
      QuadRun(u, j);
    }
  }

  /** Fewer than eight groups: no address, but the start of one if a colon follows. */
  predicate Cut(u: string, i: nat) {
    0 < Width(u, false) <= 7 - i
  }

  lemma CutAtGap(u: string, i: nat)
    requires u != "" && u[0] == ':'
    ensures !Cut(u, i)
  {
    WidthStep(u, 0, false);
  }

  lemma CutAtGroup(u: string, i: nat, j: nat)
    requires u != "" && Run(u, j)
    ensures j == 0 ==> !Cut(u, i)
    ensures 0 < j == |u| ==> (Cut(u, i) <==> i < 7)
    ensures 0 < j < |u| && u[j] == ':' ==> (Cut(u, i) <==> i < 7 && Cut(u[j + 1..], i + 1))
    ensures 0 < j < |u| && u[j] != ':' ==> !Cut(u, i)
  {
    hide Width;
    WidthStep(u, j, false);
  }

  lemma CutAtStart(t: string)
    requires |t| >= 2
    ensures (t[0] == ':' || (t[|t| - 1] == ':' && t[|t| - 2] != ':')) ==> !Cut(t, 0)
    ensures t[0] == ':' && t[1] == ':' ==> !Cut(t[1..], 0)
  {
    hide Width;
    if t[0] == ':' {
      CutAtGap(t, 0);
      if t[1] == ':' {
        CutAtGap(t[1..], 0);
      }
    } else if t[|t| - 1] == ':' {
      EndsInColon(t, false);
    }
  }

  /** is_valid_ipv6 accepts exactly the text forms of RFC 4291, and where a colon
      follows the span, which no caller has, also two or more characters that make
      up fewer than eight groups. */
  method IsValidIpv6(s: string, off: nat, len: nat) returns (ok: bool)
    requires off + len <= |s|
    ensures var t := s[off..off + len];
      ok <==> IPv6(t) || (At(s, off + len) == ':' && len >= 2 && 0 < Width(t, false) < 8)
  {
    hide IPv6, Left, Width;
    if len < 2 {
      TooShort(s[off..off + len]);
      return false;
    }
    var pos, end := off, off + len;
    SingleColons(s[off..end]);
    CutAtStart(s[off..end]);
    if s[off] == ':' {
      pos := off + 1;
      if s[pos] != ':' {
        return false;
      }
    }
    if s[end - 1] == ':' && s[end - 2] != ':' {
      return false;
    }
    LeftAtStart(s[off..end]);
    assert s[off..end][1..] == s[off + 1..end];
    ok := IsValidGroups(s, pos, end);
  }

  /** What is accepted from here on. */
  predicate Accepted(u: string, i: nat, seen: bool, colon: bool) {
    Left(u, i, seen) || (colon && !seen && Cut(u, i))
  }

  /** The loop of is_valid_ipv6. */
  method IsValidGroups(s: string, off: nat, end: nat) returns (ok: bool)
    requires off < end <= |s| && (s[end - 1] == ':' ==> 2 <= end && s[end - 2] == ':')
    ensures ok <==> Accepted(s[off..end], 0, false, At(s, end) == ':')
  {
    hide IPv4, Left, Run, Cut;
    ghost var colon := At(s, end) == ':';
    ghost var whole := Accepted(s[off..end], 0, false, colon);
    var i, pos, seen := 0, off, false;
    while pos < end
      invariant 0 <= i <= 7 && off <= pos
      invariant if pos < end then whole <==> Accepted(s[pos..end], i, seen, colon) else whole
      decreases end - pos
    {
      ghost var u := s[pos..end];
      if s[pos] == ':' && !seen {
        LeftAtGap(u, i);
        CutAtGap(u, i);
        assert u[1..] == s[pos + 1..end];
        seen, pos := true, pos + 1;
        if pos == end {
          break;
        }
        if i == 7 {
          return false;
        }
        i := i + 1;
        continue;
      }
      var j := HexRun(s, pos, end);
      LeftAtGroup(u, i, seen, j);
      CutAtGroup(u, i, j);
      assert j < |u| ==> u[j + 1..] == s[pos + j + 1..end];
      if j == 0 {
        return false;
      }
      if pos + j == end && (seen || i == 7) {
        break;
      }
      if i == 7 {
        return false;
      }
      if At(s, pos + j) != ':' {
        if At(s, pos + j) != '.' || (i < 6 && !seen) {
          return false;
        }
        if pos + j == end {
          NoQuad(u, j);
        }
        ok := IsValidIpv4(s, pos, end - pos);
        return;
      }
      i, pos := i + 1, pos + j + 1;
    }
    ok := true;
  }

  //
  // The grammar without a scan for the gap
  //

  /** Two colons in a row leave an empty group. */
  lemma {:induction false} NoDoubleColon(t: string, g: nat, quad: bool)
    requires g + 1 < |t| && t[g] == t[g + 1] == ':'
    ensures Width(t, quad) == 0
    decreases |t|
  {
    var k := Find(t, ':');
    var rest := t[k + 1..];
    if k == g {
      assert rest[0] == ':';
      assert Find(rest, ':') == 0 && rest[..0] == "";
    } else {
      assert rest[g - (k + 1)] == t[g] && rest[g - (k + 1) + 1] == t[g + 1];
      NoDoubleColon(rest, g - (k + 1), quad);
    }
  }

  predicate GapForm(t: string, g: nat) {
    g + 1 < |t| && t[g] == t[g + 1] == ':'
    && Part(t[..g], false) && Part(t[g + 2..], true) && Width(t[..g], false) + Width(t[g + 2..], true) <= 7
  }

  /** An address is eight groups, or groups around one gap anywhere that together
      are fewer than eight. */
  lemma {:induction false} IPv6Forms(t: string)
    ensures IPv6(t) <==> Width(t, true) == 8 || exists g :: 0 <= g < |t| && GapForm(t, g)
  {
    hide Width;
    var h := Gap(t);
    if h < |t| {
      NoDoubleColon(t, h, true);
      assert IPv6(t) ==> GapForm(t, h);
      forall g | 0 <= g < |t| && GapForm(t, g)
        ensures g == h
      {
        if g == h + 1 {
          assert t[..g][h] == ':';
          EndsInColon(t[..g], false);
        } else if g > h + 1 {
          assert t[..g][h] == t[..g][h + 1] == ':';
          NoDoubleColon(t[..g], h, false);
        }
      }
    }
  }
}
