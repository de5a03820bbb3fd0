/** The other validators of highlighter.c, each proved to accept exactly its grammar. */
module Validators {
  import opened ConfigText
  import opened Addresses

  method IsValidKey(s: string, off: nat, len: nat) returns (ok: bool)
    requires off + len <= |s|
    ensures ok <==> Key(s[off..off + len])
  {
    ghost var t := s[off..off + len];
    if len != 44 || s[off + 43] != '=' {
      assert len == 44 ==> t[43] == s[off + 43];
      return false;
    }
    for i := 0 to 42
      invariant forall k :: 0 <= k < i ==> Base64Char(t[k])
    {
      if !IsDecimal(s[off + i]) && !IsAlphabet(s[off + i]) && s[off + i] != '/' && s[off + i] != '+' {
        assert !Base64Char(t[i]);
        return false;
      }
    }
    assert t[42] == s[off + 42];
    ok := s[off + 42] in "AEIMQUYcgkosw480";
  }

  /** Its test for two dots in a row comes after the branch that takes every dot
      and is never reached, so that dots in a row are accepted. */
  method IsValidHostname(s: string, off: nat, len: nat) returns (ok: bool)
    requires off + len <= |s|
    ensures ok <==> Hostname(s[off..off + len])
  {
    ghost var t := s[off..off + len];
    if len > 63 || len == 0 {
      return false;
    }
    if s[off] == '-' || s[off + len - 1] == '-' {
      return false;
    }
    if s[off] == '.' || s[off + len - 1] == '.' {
      return false;
    }
    var digits, entities := 0, len;
    for i := 0 to len
      invariant digits + (len - i) <= entities <= len
      invariant forall k :: 0 <= k < i ==> HostChar(t[k])
      invariant digits + (len - i) < entities <==> exists k :: 0 <= k < i && !IsDecimal(t[k]) && t[k] != '.'
    {
      if IsDecimal(s[off + i]) {
        digits := digits + 1;
      } else if s[off + i] == '.' {
        entities := entities - 1;
      } else if !IsAlphabet(s[off + i]) && s[off + i] != '-' {
        assert !HostChar(t[i]);
        return false;
      } else {
        assert !IsDecimal(t[i]) && t[i] != '.';
      }
    }
    ok := digits != entities;
  }

  method IsValidScope(s: string, off: nat, len: nat) returns (ok: bool)
    requires off + len <= |s|
    ensures ok <==> Scope(s[off..off + len])
  {
    if len > 64 || len == 0 {
      return false;
    }
    ghost var t := s[off..off + len];
    for i := 0 to len
      invariant forall k :: 0 <= k < i ==> ScopeChar(t[k])
    {
      if !IsAlphabet(s[off + i]) && !IsDecimal(s[off + i]) && s[off + i] !in "_=+.-" {
        assert !ScopeChar(t[i]);
        return false;
      }
    }
    ok := true;
  }

  function Power(b: nat, n: nat): nat {
    if n == 0 then 1 else b * Power(b, n - 1)
  }

  lemma {:induction false} DecimalBound(t: string, k: nat)
    requires AllDecimal(t) && |t| <= k
    ensures Decimal(t) < Power(10, k)
  {
    if |t| > 0 {
      DecimalBound(t[..|t| - 1], k - 1);
    } else if k > 0 {
      DecimalBound(t, k - 1);
    }
  }

  /** The decimal digits of a short text; ten of them stay far below 64 bits. */
  method ReadDecimal(s: string, off: nat, len: nat) returns (ok: bool, val: nat)
    requires off + len <= |s| && len <= 10
    ensures ok <==> AllDecimal(s[off..off + len])
    ensures ok ==> val == Decimal(s[off..off + len]) < 0x1_0000_0000_0000_0000
  {
    ghost var t := s[off..off + len];
    val := 0;
    for i := 0 to len
      invariant AllDecimal(t[..i]) && val == Decimal(t[..i])
    {
      if !IsDecimal(s[off + i]) {
        assert !IsDecimal(t[i]);
        return false, val;
      }
      assert t[..i + 1][..i] == t[..i];
      val := 10 * val + Digit(s[off + i]);
    }
    assert t[..len] == t;
    DecimalBound(t, 10);
    ok := true;
  }

  lemma {:induction false} HexadecimalBound(t: string, k: nat)
    requires AllHexadecimal(t) && |t| <= k
    ensures Hexadecimal(t) < Power(16, k)
  {
    if |t| > 0 {
      HexadecimalBound(t[..|t| - 1], k - 1);
    } else if k > 0 {
      HexadecimalBound(t, k - 1);
    }
  }

  method ReadHexadecimal(s: string, off: nat, len: nat) returns (ok: bool, val: nat)
    requires off + len <= |s| && len <= 8
    ensures ok <==> AllHexadecimal(s[off..off + len])
    ensures ok ==> val == Hexadecimal(s[off..off + len]) < 0x1_0000_0000
  {
    ghost var t := s[off..off + len];
    val := 0;
    for i := 0 to len
      invariant AllHexadecimal(t[..i]) && val == Hexadecimal(t[..i])
    {
      if !IsHexadecimal(s[off + i]) {
        assert !IsHexadecimal(t[i]);
        return false, val;
      }
      assert t[..i + 1][..i] == t[..i];
      val := 16 * val + HexDigit(s[off + i]);
    }
    assert t[..len] == t;
    HexadecimalBound(t, 8);
    ok := true;
  }

  lemma PrefixIs(t: string)
    ensures HexPrefix(t) <==> |t| > 2 && t[0] == '0' && t[1] == 'x'
  {
    if |t| > 2 {
      assert t[..2] == [t[0], t[1]];
    }
  }

  method IsValidUint(s: string, off: nat, len: nat, hex: bool, min: nat, max: nat) returns (ok: bool)
    requires off + len <= |s|
    ensures ok <==> Number(s[off..off + len], hex, min, max)
  {
    if len > 10 || len == 0 {
      return false;
    }
    hide HexPrefix, AllDecimal, AllHexadecimal, Decimal, Hexadecimal;
    ghost var t := s[off..off + len];
    var val;
    if hex && len > 2 && s[off] == '0' && s[off + 1] == 'x' {
      PrefixIs(t);
      assert t[2..] == s[off + 2..off + len];
      ok, val := ReadHexadecimal(s, off + 2, len - 2);
    } else {
      PrefixIs(t);
      ok, val := ReadDecimal(s, off, len);
    }
    ok := ok && val <= max && val >= min;
  }

  //
  // Endpoints
  //

  /** Where the loop over a bracketed endpoint stands: no closing bracket yet, and
      if a scope was begun at position p, an address before it. */
  ghost predicate InBrackets(t: string, i: nat, seen: bool, p: nat) {
    1 <= i <= |t| && t[0] == '[' && (forall k :: 0 <= k < i ==> t[k] != ']')
    && if seen then 1 <= p < i && t[p] == '%' && '%' !in t[1..p] && '%' !in t[p + 1..i] && IPv6(t[1..p])
       else '%' !in t[1..i]
  }

  lemma {:induction false} FindNone(t: string, c: char, k: nat)
    requires k <= |t| && c !in t[..k] && (k < |t| ==> t[k] == c)
    ensures Find(t, c) == k
  {
    assert forall i :: 0 <= i < k ==> t[i] == t[..k][i];
    FindIs(t, c, k);
  }

  /** A scope begins at position i. */
  lemma AtPercent(t: string, i: nat, seen: bool, p: nat)
    requires InBrackets(t, i, seen, p) && i < |t| && t[i] == '%'
    ensures seen ==> !EndpointText(t)
    ensures !seen && !IPv6(t[1..i]) ==> !EndpointText(t)
    ensures !seen && IPv6(t[1..i]) ==> InBrackets(t, i + 1, true, i)
  {
    hide IPv6, Number;
    var r := Find(t, ']');
    assert r > i;
    if r < |t| {
      var host := t[1..r];
      var q := if seen then p else i;
      assert host[..q - 1] == t[1..q] && host[q - 1] == '%';
      FindNone(host, '%', q - 1);
      assert host[q..] == t[q + 1..r];
      if seen {
        assert host[q..][i - q - 1] == '%' && !ScopeChar('%');
      }
    }
  }

  lemma AtBracket(t: string, i: nat, seen: bool, p: nat)
    requires InBrackets(t, i, seen, p) && i < |t| && t[i] == ']'
    ensures EndpointText(t)
       <==> (if seen then Scope(t[p + 1..i]) else IPv6(t[1..i])) && i + 1 < |t| && t[i + 1] == ':' && Port(t[i + 2..])
  {
    hide IPv6, Port, Scope;
    FindIs(t, ']', i);
    var host := t[1..i];
    if seen {
      assert host[..p - 1] == t[1..p] && host[p - 1] == '%' && host[p..] == t[p + 1..i];
      FindNone(host, '%', p - 1);
    } else {
      assert host[..|host|] == host;
      FindNone(host, '%', |host|);
    }
  }

  lemma InBracketsNext(t: string, i: nat, seen: bool, p: nat)
    requires InBrackets(t, i, seen, p) && i < |t| && t[i] != ']' && t[i] != '%'
    ensures InBrackets(t, i + 1, seen, p)
  {
    hide IPv6;
    assert t[1..i + 1] == t[1..i] + [t[i]];
    assert seen ==> t[p + 1..i + 1] == t[p + 1..i] + [t[i]];
  }

  lemma NoBracket(t: string, seen: bool, p: nat)
    requires t != "" && InBrackets(t, |t|, seen, p)
    ensures !EndpointText(t)
  {
    FindIs(t, ']', |t|);
  }

  lemma BracketsOpen(t: string)
    requires t != "" && t[0] == '['
    ensures InBrackets(t, 1, false, 0)
  {
  }

  lemma Slice(s: string, off: nat, len: nat, from: nat, to: nat)
    requires off + len <= |s| && from <= to <= len
    ensures s[off..off + len][from..to] == s[off + from..off + to]
  {
    var t := s[off..off + len];
    var u, v := t[from..to], s[off + from..off + to];
    assert forall k :: 0 <= k < to - from ==> u[k] == t[from + k] == v[k];
  }

  method IsValidBracketed(s: string, off: nat, len: nat) returns (ok: bool)
    requires off + len <= |s| && len > 0 && s[off] == '['
    ensures ok <==> EndpointText(s[off..off + len])
  {
    hide EndpointText, IPv6, Port, Scope, InBrackets;
    ghost var t := s[off..off + len];
    ghost var p: nat := 0;
    BracketsOpen(t);
    var seen, host, n := false, off + 1, 0;
    for i := 1 to len
      invariant InBrackets(t, i, seen, p) && n == off + i - host
      invariant host == if seen then off + p + 1 else off + 1
    {
      if s[off + i] == '%' {
        AtPercent(t, i, seen, p);
        if seen {
          return false;
        }
        Slice(s, off, len, 1, i);
        seen := true;
        var valid := IsValidIpv6(s, host, n);
        if !valid {
          return false;
        }
        p := i;
        host, n := off + i + 1, 0;
      } else if s[off + i] == ']' {
        AtBracket(t, i, seen, p);
        if seen {
          Slice(s, off, len, p + 1, i);
          ok := IsValidScope(s, host, n);
        } else {
          Slice(s, off, len, 1, i);
          ok := IsValidIpv6(s, host, n);
        }
        if !ok || i == len - 1 || s[off + i + 1] != ':' {
          return false;
        }
        Slice(s, off, len, i + 2, len);
        ok := IsValidPort(s, off + i + 2, len - i - 2);
        return;
      } else {
        InBracketsNext(t, i, seen, p);
        n := n + 1;
      }
    }
    NoBracket(t, seen, p);
    ok := false;
  }

  method IsValidPort(s: string, off: nat, len: nat) returns (ok: bool)
    requires off + len <= |s|
    ensures ok <==> Port(s[off..off + len])
  {
    ok := IsValidUint(s, off, len, false, 0, 65535);
  }

  /** is_valid_endpoint accepts exactly the endpoints, whatever byte follows the span. */
  method IsValidEndpoint(s: string, off: nat, len: nat) returns (ok: bool)
    requires off + len <= |s|
    ensures ok <==> EndpointText(s[off..off + len])
  {
    hide IPv4, IPv6, Port, Scope, Hostname, BracketHost;
    ghost var t := s[off..off + len];
    if len == 0 {
      return false;
    }
    if s[off] == '[' {
      ok := IsValidBracketed(s, off, len);
      return;
    }
    for i := 0 to len
      invariant forall k :: 0 <= k < i ==> t[k] != ':'
    {
      if s[off + i] == ':' {
        FindIs(t, ':', i);
        assert t[..i] == s[off..off + i] && t[i + 1..] == s[off + i + 1..off + len];
        ok := IsValidPort(s, off + i + 1, len - i - 1);
        if ok {
          ok := IsValidIpv4(s, off, i);
          if !ok {
            ok := IsValidHostname(s, off, i);
          }
        }
        return;
      }
    }
    FindIs(t, ':', len);
    ok := false;
  }

  //
  // Networks
  //

  /** No text is an address of both kinds. */
  lemma OneFamily(t: string)
    requires IPv4(t)
    ensures !IPv6(t)
  {
    var c := Find(t, ':');
    if c < |t| {
      OctetsPlain(t, 4, c);
    }
  }

  /** is_valid_network accepts exactly the networks, and where a colon follows the
      span, which no caller has, what is_valid_ipv6 accepts there besides. */
  method IsValidNetwork(s: string, off: nat, len: nat) returns (ok: bool)
    requires off + len <= |s|
    ensures var t := s[off..off + len];
      ok <==> Network(t) || (At(s, off + len) == ':' && '/' !in t && len >= 2 && 0 < Width(t, false) < 8)
  {
    hide IPv4, IPv6, Decimal, Width;
    ghost var t := s[off..off + len];
    for i := 0 to len
      invariant forall k :: 0 <= k < i ==> t[k] != '/'
    {
      if s[off + i] == '/' {
        FindIs(t, '/', i);
        assert t[i] == '/' && t[..i] == s[off..off + i] && t[i + 1..] == s[off + i + 1..off + len];
        ok := IsValidPrefixed(s, off, i, len);
        return;
      }
    }
    FindIs(t, '/', len);
    ok := IsValidIpv4(s, off, len);
    if !ok {
      ok := IsValidIpv6(s, off, len);
    }
  }

  /** An address that ends at a slash, and the prefix length behind it. */
  method IsValidPrefixed(s: string, off: nat, i: nat, len: nat) returns (ok: bool)
    requires off + len <= |s| && i < len && s[off + i] == '/'
    ensures var ip, cidr := s[off..off + i], s[off + i + 1..off + len];
      ok <==> 1 <= |cidr| <= 3 && AllDecimal(cidr)
              && ((IPv4(ip) && Decimal(cidr) <= 32) || (IPv6(ip) && Decimal(cidr) <= 128))
  {
    hide IPv4, IPv6;
    var cidr := len - i - 1;
    if cidr > 3 || cidr == 0 {
      return false;
    }
    var val;
    ok, val := ReadDecimal(s, off + i + 1, cidr);
    if !ok {
      return;
    }
    DecimalBound(s[off + i + 1..off + len], 3);
    ok := IsValidIpv4(s, off, i);
    if ok {
      OneFamily(s[off..off + i]);
      ok := val <= 32;
      return;
    }
    ok := IsValidIpv6(s, off, i);
    ok := ok && val <= 128;
  }
}
