// From an IPv4 address to its DNS64 address (dns_dns64_aaaafroma in
// lib/dns/dns64.c) and back through the reverse name (dns64_cname in
// bin/named/builtin.c).
module Synthesis {
  import opened Base
  import opened Dns64
  import WireName

  // Where the octets of the IPv4 address go, and where the suffix begins
  // (section 2.2 of RFC 6052).
  function Layout(p: nat): (f: seq<nat>)
    ensures |f| == 5
  {
    if p == 32 then [4, 5, 6, 7, 9]
    else if p == 40 then [5, 6, 7, 9, 10]
    else if p == 48 then [6, 7, 9, 10, 11]
    else if p == 56 then [7, 9, 10, 11, 12]
    else if p == 64 then [9, 10, 11, 12, 13]
    else [12, 13, 14, 15, 16]
  }

  // The places follow each other and leave out octet 8.
  lemma LayoutIs(p: nat)
    requires IsPrefix(p)
    ensures var f := Layout(p);
            && f[0] == (if p / 8 == 8 then 9 else p / 8) && f[4] <= 16 && (p <= 64 ==> f[4] > 8)
            && forall i :: 0 <= i < 4 ==> p / 8 <= f[i] < f[i + 1] == (if f[i] + 1 == 8 then 9 else f[i] + 1) && (p <= 64 ==> f[i] != 8)
    ensures var f := Layout(p);
            forall i, k :: 0 <= i < k <= 4 ==> f[i] < f[k]
  {
  }

  // aaaa is the address for a under the prefix and the suffix in bits.
  ghost predicate Embeds(p: nat, bits: seq<byte>, a: seq<byte>, aaaa: seq<byte>)
    requires IsPrefix(p) && |bits| == 16 && |a| == 4
  {
    var f := Layout(p);
    |aaaa| == 16 && aaaa[..p / 8] == bits[..p / 8] && aaaa[f[4]..] == bits[f[4]..] &&
    (forall i :: 0 <= i < 4 ==> aaaa[f[i]] == a[i]) && (p <= 64 ==> aaaa[8] == 0)
  }

  // The part of dns_dns64_aaaafroma that builds the address
  method AaaaFromA(p: nat, bits: seq<byte>, a: seq<byte>) returns (aaaa: array<byte>)
    requires IsPrefix(p) && |bits| == 16 && |a| == 4
    ensures Embeds(p, bits, a, aaaa[..])
  {
    hide Layout;
    ghost var f := Layout(p);
    LayoutIs(p);
    aaaa := new byte[16];
    var nbytes := p / 8;
    forall k | 0 <= k < nbytes {
      aaaa[k] := bits[k];
    }
    if nbytes == 8 {
      aaaa[nbytes] := 0;
      nbytes := nbytes + 1;
    }
    for i := 0 to 4
      invariant nbytes == f[i]
      invariant aaaa[..p / 8] == bits[..p / 8]
      invariant forall k :: 0 <= k < i ==> aaaa[f[k]] == a[k]
      invariant p <= 64 && nbytes > 8 ==> aaaa[8] == 0
    {
      aaaa[nbytes] := a[i];
      nbytes := nbytes + 1;
      if nbytes == 8 {
        aaaa[nbytes] := 0;
        nbytes := nbytes + 1;
      }
    }
    forall k | nbytes <= k < 16 {
      aaaa[k] := bits[k];
    }
  }

  // The digit for a nibble, as it stands in a name.
  function HexDigit(n: nibble): (c: byte)
    ensures Hex16(c) == 16 * (n as int)
  {
    if n < 10 then 0x30 + n else 0x61 + (n - 10)
  }

  // Nibble m of an address, from its end.
  function AddressNibble(t: seq<byte>, m: nat): nibble
    requires |t| == 16 && m < 32
  {
    if m % 2 == 0 then t[15 - m / 2] % 16 else t[15 - m / 2] / 16
  }

  // The name of an address in the zone for its prefix: the nibbles after the
  // prefix, the last one first (section 2.5 of RFC 3596).
  function ReverseName(p: nat, t: seq<byte>): (s: Octets)
    requires IsPrefix(p) && |t| == 16
    ensures |s| == (128 - p) / 2
  {
    seq<byte>((128 - p) / 2, i requires 0 <= i < (128 - p) / 2 =>
      if i % 2 == 0 then 1 else HexDigit(AddressNibble(t, i / 2)))
  }

  lemma ReverseAt(p: nat, t: seq<byte>, m: nat)
    requires IsPrefix(p) && |t| == 16 && m < (128 - p) / 4
    ensures var s := ReverseName(p, t);
            Digit(s, m) && Nibble(s, m) == AddressNibble(t, m)
  {
    hide AddressNibble;
    var s := ReverseName(p, t);
    assert 2 * m + 1 < |s|;
    assert s[2 * m] == 1 by { assert (2 * m) % 2 == 0; }
    assert s[2 * m + 1] == HexDigit(AddressNibble(t, m)) by { assert (2 * m + 1) % 2 == 1 && (2 * m + 1) / 2 == m; }
    hide ReverseName, HexDigit;
  }

  lemma ReverseValue(p: nat, t: seq<byte>)
    requires IsPrefix(p) && |t| == 16
    ensures var s := ReverseName(p, t);
            AllDigits(s) && |Value(s)| == (128 - p) / 4 &&
            forall m :: 0 <= m < |Value(s)| ==> Value(s)[m] == AddressNibble(t, m)
  {
    hide ReverseName, AddressNibble, Digit, Nibble;
    forall m: nat | m < (128 - p) / 4
      ensures Digit(ReverseName(p, t), m) && Nibble(ReverseName(p, t), m) == AddressNibble(t, m)
    {
      ReverseAt(p, t, m);
    }
  }

  lemma ReverseOctet(p: nat, t: seq<byte>, j: nat)
    requires IsPrefix(p) && |t| == 16 && j < (128 - p) / 8
    ensures Octet(Value(ReverseName(p, t)), j) == t[15 - j]
  {
    ReverseValue(p, t);
    Halves(t, j);
    hide ReverseName, Value, AllDigits, AddressNibble;
    var x := Value(ReverseName(p, t));
    assert 2 * j + 1 < |x|;
    assert x[2 * j] == AddressNibble(t, 2 * j) && x[2 * j + 1] == AddressNibble(t, 2 * j + 1);
  }

  lemma Halves(t: seq<byte>, j: nat)
    requires |t| == 16 && j < 16
    ensures AddressNibble(t, 2 * j) as int + 16 * (AddressNibble(t, 2 * j + 1) as int) == t[15 - j]
  {
    assert (2 * j) % 2 == 0 && (2 * j) / 2 == j && (2 * j + 1) % 2 == 1 && (2 * j + 1) / 2 == j;
  }

  lemma ReverseReserved(p: nat, t: seq<byte>)
    requires IsPrefix(p) && p <= 64 && |t| == 16
    ensures ReservedZero(p, Value(ReverseName(p, t))) <==> t[8] == 0
  {
    ReverseValue(p, t);
    hide ReverseName, Value, AllDigits;
    var x, m := Value(ReverseName(p, t)), (64 - p) / 4;
    assert |x| - 1 - m == 15 && |x| - 1 - (m + 1) == 14;
    assert x[15] == AddressNibble(t, 15) && x[14] == AddressNibble(t, 14);
  }

  // 192.0.0.170 or 192.0.0.171
  predicate WellKnown(q: seq<byte>)
    requires |q| == 4
  {
    q[0] == 192 && q[1] == 0 && q[2] == 0 && (q[3] == 170 || q[3] == 171)
  }

  function Reversed(a: seq<byte>): (q: seq<byte>)
    requires |a| == 4
    ensures |q| == 4
  {
    [a[3], a[2], a[1], a[0]]
  }

  // What the reverse name of any address under the prefix leads to.
  lemma AnyAddress(p: nat, t: seq<byte>)
    requires IsPrefix(p) && |t| == 16
    ensures var f := Layout(p);
            Lookup(10 + p / 2, ReverseName(p, t)) ==
            if p <= 64 && t[8] != 0 then NotFound
            else if WellKnown(t[12..]) then Ptr(WireName.Wire([IPV4ONLY, ARPA]))
            else Cname(WireName.Wire(InAddr([t[f[3]], t[f[2]], t[f[1]], t[f[0]]])))
  {
    PrefixLength(p);
    ReverseValue(p, t);
    LookupFull(10 + p / 2, ReverseName(p, t));
    hide Lookup, ReverseName, Value, AllDigits, ReservedZero, InAddr, Octet, Quad, IsIpv4Only, WellKnown, WireName.Wire;
    if p <= 64 {
      ReverseReserved(p, t);
    }
    QuadIs(p, t);
    LastIs(p, t);
  }

  lemma QuadIs(p: nat, t: seq<byte>)
    requires IsPrefix(p) && |t| == 16
    ensures var f := Layout(p);
            Quad(p, Value(ReverseName(p, t))) == [t[f[3]], t[f[2]], t[f[1]], t[f[0]]]
  {
    hide ReverseName, Value, Octet, Places, Layout, IsPrefix;
    QuadFits(p);
    forall i | 0 <= i < 4
      ensures Octet(Value(ReverseName(p, t)), Places(p)[i]) == t[Layout(p)[3 - i]]
    {
      ReverseOctet(p, t, Places(p)[i]);
    }
  }

  lemma LastIs(p: nat, t: seq<byte>)
    requires IsPrefix(p) && |t| == 16
    ensures IsIpv4Only(Value(ReverseName(p, t))) == WellKnown(t[12..])
  {
    ReverseOctet(p, t, 0);
    ReverseOctet(p, t, 1);
    ReverseOctet(p, t, 2);
    ReverseOctet(p, t, 3);
    hide ReverseName, Value, Octet;
  }

  lemma LookupFull(zlen: nat, ndata: Octets)
    requires zlen + |ndata| == 74 && AllDigits(ndata) && PrefixOf(zlen).Some?
    ensures var p, x := PrefixOf(zlen).value, Value(ndata);
            Lookup(zlen, ndata) ==
            if !ReservedZero(p, x) then NotFound
            else if IsIpv4Only(x) then Ptr(WireName.Wire([IPV4ONLY, ARPA]))
            else Cname(WireName.Wire(InAddr(Quad(p, x))))
  {
  }

  lemma QuadFits(p: nat)
    requires IsPrefix(p)
    ensures forall i :: 0 <= i < 4 ==> Places(p)[i] < (128 - p) / 8 && Places(p)[i] == 15 - Layout(p)[3 - i]
  {
  }

  // The reverse name of an address made from an IPv4 address leads back to that
  // IPv4 address.
  lemma ThereAndBack(p: nat, bits: seq<byte>, a: seq<byte>, aaaa: seq<byte>)
    requires IsPrefix(p) && |bits| == 16 && |a| == 4 && Embeds(p, bits, a, aaaa)
    ensures Lookup(10 + p / 2, ReverseName(p, aaaa)) ==
            if WellKnown(aaaa[12..]) then Ptr(WireName.Wire([IPV4ONLY, ARPA]))
            else Cname(WireName.Wire(InAddr(Reversed(a))))
  {
    hide Lookup, ReverseName, InAddr, WireName.Wire, WellKnown;
    AnyAddress(p, aaaa);
  }

  // Exactly which addresses lead to ipv4only.arpa. Under prefixes of at most 56
  // bits the suffix alone decides, whatever the IPv4 address; under 64 bits the
  // last octet of the IPv4 address and the suffix do.
  lemma PtrExactly(p: nat, bits: seq<byte>, a: seq<byte>, aaaa: seq<byte>)
    requires IsPrefix(p) && |bits| == 16 && |a| == 4 && Embeds(p, bits, a, aaaa)
    ensures Lookup(10 + p / 2, ReverseName(p, aaaa)).Ptr? <==>
            if p == 96 then WellKnown(a)
            else if p == 64 then WellKnown([a[3]] + bits[13..])
            else WellKnown(bits[12..])
  {
    hide Lookup, ReverseName, InAddr, WireName.Wire;
    ThereAndBack(p, bits, a, aaaa);
    LastFour(p, bits, a, aaaa);
  }

  lemma LastFour(p: nat, bits: seq<byte>, a: seq<byte>, aaaa: seq<byte>)
    requires IsPrefix(p) && |bits| == 16 && |a| == 4 && Embeds(p, bits, a, aaaa)
    ensures aaaa[12..] == if p == 96 then a else if p == 64 then [a[3]] + bits[13..] else bits[12..]
  {
    var n := Layout(p)[4];
    forall k | n <= k < 16
      ensures aaaa[k] == bits[k]
    {
      assert aaaa[n..][k - n] == bits[n..][k - n];
    }
  }

  // Without a suffix the two well-known addresses lead to ipv4only.arpa under a
  // prefix of 96 bits only; under the shorter ones they have a CNAME like any other.
  lemma WellKnownOnlyFor96(p: nat, bits: seq<byte>, a: seq<byte>, aaaa: seq<byte>)
    requires IsPrefix(p) && |bits| == 16 && |a| == 4 && Embeds(p, bits, a, aaaa)
    requires forall k :: Layout(p)[4] <= k < 16 ==> bits[k] == 0
    ensures Lookup(10 + p / 2, ReverseName(p, aaaa)).Ptr? <==> p == 96 && WellKnown(a)
  {
    hide Lookup, ReverseName;
    PtrExactly(p, bits, a, aaaa);
  }
}
