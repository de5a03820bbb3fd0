/** The texts that a configuration file is made of: character classes, and the
    grammars of addresses, hosts, numbers, endpoints and networks. */
module ConfigText {

  predicate IsDecimal(c: char) {
    '0' <= c <= '9'
  }

  predicate IsAlphabet(c: char) {
    'a' <= c <= 'z' || 'A' <= c <= 'Z'
  }

  predicate IsHexadecimal(c: char) {
    IsDecimal(c) || 'a' <= c <= 'f' || 'A' <= c <= 'F'
  }

  /** c | 32, by which the source ignores case. */
  function Or32(c: char): nat {
    if c as nat / 32 % 2 == 0 then c as nat + 32 else c as nat
  }

  lemma CaseIgnored(c: char)
    ensures IsAlphabet(c) <==> 'a' as nat <= Or32(c) <= 'z' as nat
    ensures IsHexadecimal(c) <==> IsDecimal(c) || 'a' as nat <= Or32(c) <= 'f' as nat
  {
  }

  /** Position of the first c, or the end. */
  function Find(t: string, c: char): (k: nat)
    ensures k <= |t| && (k < |t| ==> t[k] == c) && forall i :: 0 <= i < k ==> t[i] != c
  {
    if t == "" || t[0] == c then 0 else 1 + Find(t[1..], c)
  }

  lemma {:induction false} FindIs(t: string, c: char, k: nat)
    requires k <= |t| && (k < |t| ==> t[k] == c) && forall i :: 0 <= i < k ==> t[i] != c
    ensures Find(t, c) == k
  {
    var f := Find(t, c);
    assert f < |t| ==> t[f] == c;
  }

  predicate AllDecimal(t: string) {
    forall i :: 0 <= i < |t| ==> IsDecimal(t[i])
  }

  predicate AllHexadecimal(t: string) {
    forall i :: 0 <= i < |t| ==> IsHexadecimal(t[i])
  }

  function Digit(c: char): nat
    requires IsDecimal(c)
  {
    c as nat - '0' as nat
  }

  /** The number written in decimal. */
  function Decimal(t: string): nat
    requires AllDecimal(t)
  {
    if t == "" then 0 else 10 * Decimal(t[..|t| - 1]) + Digit(t[|t| - 1])
  }

  //
  // Addresses
  //

  /** A number up to 255 in decimal, without leading zeros. */
  predicate Octet(t: string) {
    1 <= |t| <= 3 && AllDecimal(t) && (|t| > 1 ==> t[0] != '0') && Decimal(t) <= 255
  }

  /** n octets with dots between them. */
  predicate Octets(t: string, n: nat)
    decreases |t|
  {
    var k := Find(t, '.');
    n > 0 && Octet(t[..k]) && if k == |t| then n == 1 else Octets(t[k + 1..], n - 1)
  }

  predicate IPv4(t: string) {
    Octets(t, 4)
  }

  /** A 16-bit group: one to four hexadecimal digits. */
  predicate Group(t: string) {
    1 <= |t| <= 4 && AllHexadecimal(t)
  }

  /** How many 16-bit groups a text with colons between them stands for, or 0 when
      it is not such a text. A dotted quad may take the place of the last two. */
  function Width(t: string, quad: bool): nat
    decreases |t|
  {
    var k := Find(t, ':');
    if k == |t| then
      if Group(t) then 1 else if quad && IPv4(t) then 2 else 0
    else if Group(t[..k]) && Width(t[k + 1..], quad) > 0 then 1 + Width(t[k + 1..], quad)
    else 0
  }

  /** Position of the first two colons in a row, or the end. */
  function Gap(t: string): (g: nat)
    ensures g <= |t| && (g < |t| ==> g + 1 < |t| && t[g] == t[g + 1] == ':')
    ensures forall i :: 0 <= i < g && i + 1 < |t| ==> !(t[i] == t[i + 1] == ':')
  {
    if |t| < 2 then |t| else if t[0] == t[1] == ':' then 0 else 1 + Gap(t[1..])
  }

  predicate Part(t: string, quad: bool) {
    t == "" || Width(t, quad) > 0
  }

  /** An address of which n groups are already read: the other groups in full, or
      with a gap that stands for one or more of them. */
  predicate IPv6From(t: string, n: nat) {
    var g := Gap(t);
    if g == |t| then Width(t, true) > 0 && n + Width(t, true) == 8
    else Part(t[..g], false) && Part(t[g + 2..], true) && n + Width(t[..g], false) + Width(t[g + 2..], true) <= 7
  }

  /** The text forms of section 2.2 of RFC 4291. */
  predicate IPv6(t: string) {
    IPv6From(t, 0)
  }

  //
  // Hosts, numbers, endpoints, networks, keys
  //

  predicate HostChar(c: char) {
    IsDecimal(c) || IsAlphabet(c) || c == '-' || c == '.'
  }

  /** Letters, digits, hyphens and dots, none but letters and digits at the ends,
      and not digits and dots alone. */
  predicate Hostname(t: string) {
    1 <= |t| <= 63
    && t[0] !in "-." && t[|t| - 1] !in "-."
    && (forall i :: 0 <= i < |t| ==> HostChar(t[i]))
    && exists i :: 0 <= i < |t| && !IsDecimal(t[i]) && t[i] != '.'
  }

  predicate ScopeChar(c: char) {
    IsAlphabet(c) || IsDecimal(c) || c in "_=+.-"
  }

  predicate Scope(t: string) {
    1 <= |t| <= 64 && forall i :: 0 <= i < |t| ==> ScopeChar(t[i])
  }

  function HexDigit(c: char): nat
    requires IsHexadecimal(c)
  {
    if IsDecimal(c) then Digit(c) else if 'a' <= c then c as nat - 'a' as nat + 10 else c as nat - 'A' as nat + 10
  }

  /** The number written in hexadecimal. */
  function Hexadecimal(t: string): nat
    requires AllHexadecimal(t)
  {
    if t == "" then 0 else 16 * Hexadecimal(t[..|t| - 1]) + HexDigit(t[|t| - 1])
  }

  predicate HexPrefix(t: string) {
    |t| > 2 && t[..2] == "0x"
  }

  /** A number of at most ten characters, in decimal or where allowed in hexadecimal. */
  predicate Number(t: string, hex: bool, min: nat, max: nat) {
    1 <= |t| <= 10
    && if hex && HexPrefix(t) then AllHexadecimal(t[2..]) && min <= Hexadecimal(t[2..]) <= max
       else AllDecimal(t) && min <= Decimal(t) <= max
  }

  predicate Port(t: string) {
    Number(t, false, 0, 65535)
  }

  /** An IPv6 address in brackets, perhaps with a scope, or a host; then a colon and a port. */
  predicate EndpointText(t: string) {
    if t != "" && t[0] == '[' then
      var r := Find(t, ']');
      r + 1 < |t| && BracketHost(t[1..r]) && t[r + 1] == ':' && Port(t[r + 2..])
    else
      var c := Find(t, ':');
      c < |t| && Port(t[c + 1..]) && (IPv4(t[..c]) || Hostname(t[..c]))
  }

  predicate BracketHost(t: string) {
    var p := Find(t, '%');
    IPv6(t[..p]) && (p < |t| ==> Scope(t[p + 1..]))
  }

  /** An address, perhaps followed by a slash and a prefix length that fits it. */
  predicate Network(t: string) {
    var c := Find(t, '/');
    if c == |t| then IPv4(t) || IPv6(t)
    else
      var ip, cidr := t[..c], t[c + 1..];
      1 <= |cidr| <= 3 && AllDecimal(cidr)
      && ((IPv4(ip) && Decimal(cidr) <= 32) || (IPv6(ip) && Decimal(cidr) <= 128))
  }

  predicate Base64Char(c: char) {
    IsDecimal(c) || IsAlphabet(c) || c == '/' || c == '+'
  }

  /** 43 characters of base64, the last of which stands for four bits, and one of padding. */
  predicate Key(t: string) {
    |t| == 44 && t[43] == '=' && (forall i :: 0 <= i < 42 ==> Base64Char(t[i])) && t[42] in "AEIMQUYcgkosw480"
  }

  predicate Keepalive(t: string) {
    t == "off" || Number(t, false, 0, 65535)
  }

  predicate FwMarkText(t: string) {
    t == "off" || Number(t, true, 0, 4294967295)
  }

  predicate TableText(t: string) {
    |t| < 512 || t in ["auto", "off"] || Number(t, false, 0, 4294967295)
  }
}
