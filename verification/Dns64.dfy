// Reverse mapping of DNS64 addresses (dns64_cname and dns64_rdata in
// bin/named/builtin.c): a name under a DNS64 prefix in ip6.arpa leads to the
// name of the embedded IPv4 address in in-addr.arpa (section 5.3.1 of RFC 6147).
module Dns64 {
  import opened Base
  import WireName

  // The octets of a name relative to the zone, without the root label.
  type Octets = seq<byte>

  datatype Answer = NotFound | EmptyNode | Cname(rdata: Octets) | Ptr(rdata: Octets)

  // --------------------------------------------------------------- nibbles

  // The table hex16: sixteen times the value of a hexadecimal digit, or 1.
  function Hex16(c: byte): byte {
    if 0x30 <= c <= 0x39 then (c - 0x30) * 16
    else if 0x41 <= c <= 0x46 then (c - 0x41 + 10) * 16
    else if 0x61 <= c <= 0x66 then (c - 0x61 + 10) * 16
    else 1
  }

  type nibble = x: int | 0 <= x < 16

  // Label m is a single hexadecimal digit.
  predicate Digit(ndata: Octets, m: nat)
    requires 2 * m + 1 < |ndata|
  {
    ndata[2 * m] == 1 && Hex16(ndata[2 * m + 1]) != 1
  }

  predicate AllDigits(ndata: Octets) {
    |ndata| % 2 == 0 && forall m :: 0 <= m < |ndata| / 2 ==> Digit(ndata, m)
  }

  function Nibble(ndata: Octets, m: nat): nibble
    requires 2 * m + 1 < |ndata|
  {
    Hex16(ndata[2 * m + 1]) / 16
  }

  // ------------------------------------------------------- prefix lengths

  // The prefix length for a zone name of this many octets (the macro ZLEN).
  function PrefixOf(zlen: nat): Option<nat> {
    if zlen == 26 then Some(32)
    else if zlen == 30 then Some(40)
    else if zlen == 34 then Some(48)
    else if zlen == 38 then Some(56)
    else if zlen == 42 then Some(64)
    else if zlen == 58 then Some(96)
    else None
  }

  predicate IsPrefix(p: nat) {
    p == 32 || p == 40 || p == 48 || p == 56 || p == 64 || p == 96
  }

  lemma PrefixLength(p: nat)
    requires IsPrefix(p)
    ensures PrefixOf(10 + p / 2) == Some(p)
  {
  }

  // ------------------------------------------------------------- the meaning

  // The names' nibbles, the least significant first.
  function Value(ndata: Octets): (x: seq<nibble>)
    ensures |x| == |ndata| / 2 && forall m :: 0 <= m < |x| ==> x[m] == Nibble(ndata, m)
  {
    seq<nibble>(|ndata| / 2, m requires 0 <= m < |ndata| / 2 => Nibble(ndata, m))
  }

  // Nibble m counted from the end of the prefix; zero when the name is shorter.
  function FromTop(x: seq<nibble>, m: nat): nibble {
    if m < |x| then x[|x| - 1 - m] else 0
  }

  // Of bits 64 to 71, which section 2.2 of RFC 6052 reserves, those that the
  // name determines are zero.
  predicate ReservedZero(p: nat, x: seq<nibble>) {
    p <= 64 ==> FromTop(x, (64 - p) / 4) == 0 && FromTop(x, (64 - p) / 4 + 1) == 0
  }

  // Octet j of the address, from its end, for a name with an even number of
  // nibbles.
  function Octet(x: seq<nibble>, j: nat): byte {
    var low: int := if 2 * j < |x| then x[2 * j] else 0;
    var high: int := if 2 * j + 1 < |x| then x[2 * j + 1] else 0;
    low + 16 * high
  }

  // Where the IPv4 address stands, counted from the end of the address: its
  // last octet first (section 2.2 of RFC 6052).
  function Places(p: nat): (r: seq<nat>)
    ensures |r| == 4 && forall i :: 0 <= i < 4 ==> r[i] < 16
  {
    if p == 32 then [8, 9, 10, 11]
    else if p == 40 then [6, 8, 9, 10]
    else if p == 48 then [5, 6, 8, 9]
    else if p == 56 then [4, 5, 6, 8]
    else if p == 64 then [3, 4, 5, 6]
    else [0, 1, 2, 3]
  }

  // The decimal digits of a number.
  function Decimal(n: nat): (s: seq<byte>)
    ensures |s| > 0 && (n < 10 ==> |s| == 1) && (10 <= n < 100 ==> |s| == 2) && (100 <= n < 1000 ==> |s| == 3)
  {
    if n < 10 then [48 + n] else Decimal(n / 10) + [48 + n % 10]
  }

  // The number that decimal digits stand for.
  function ReadDecimal(s: seq<byte>): int {
    if s == [] then 0 else 10 * ReadDecimal(s[..|s| - 1]) + s[|s| - 1] - 48
  }

  // The digits read back as the number, without a leading zero.
  lemma {:induction false} DecimalReads(n: nat)
    ensures ReadDecimal(Decimal(n)) == n
    ensures forall i :: 0 <= i < |Decimal(n)| ==> '0' as int <= Decimal(n)[i] <= '9' as int
    ensures n > 0 ==> Decimal(n)[0] != '0' as int
  {
    if n >= 10 {
      DecimalReads(n / 10);
      assert Decimal(n)[..|Decimal(n)| - 1] == Decimal(n / 10);
    }
  }

  function DecimalLabel(c: byte): (l: WireName.Label)
    ensures l != []
  {
    Decimal(c)
  }

  const IN_ADDR: WireName.Label := [105, 110, 45, 97, 100, 100, 114] // "in-addr"
  const ARPA: WireName.Label := [97, 114, 112, 97]                  // "arpa"
  const IPV4ONLY: WireName.Label := [105, 112, 118, 52, 111, 110, 108, 121] // "ipv4only"

  // The labels of d.c.b.a.in-addr.arpa for the octets d, c, b and a.
  function InAddr(q: seq<byte>): seq<WireName.Label>
    requires |q| == 4
  {
    [DecimalLabel(q[0]), DecimalLabel(q[1]), DecimalLabel(q[2]), DecimalLabel(q[3]), IN_ADDR, ARPA]
  }

  // The octets at the places for the prefix length.
  function Quad(p: nat, x: seq<nibble>): (q: seq<byte>)
    ensures |q| == 4
  {
    var r := Places(p);
    [Octet(x, r[0]), Octet(x, r[1]), Octet(x, r[2]), Octet(x, r[3])]
  }

  // 192.0.0.170 and 192.0.0.171 in the last four octets
  predicate IsIpv4Only(x: seq<nibble>) {
    (Octet(x, 0) == 170 || Octet(x, 0) == 171) && Octet(x, 1) == 0 && Octet(x, 2) == 0 && Octet(x, 3) == 192
  }

  function Lookup(zlen: nat, ndata: Octets): Answer {
    if zlen + |ndata| > 74 || !AllDigits(ndata) || PrefixOf(zlen).None? then NotFound
    else
      var p, x := PrefixOf(zlen).value, Value(ndata);
      if !ReservedZero(p, x) then NotFound
      else if zlen + |ndata| != 74 then EmptyNode
      else if IsIpv4Only(x) then Ptr(WireName.Wire([IPV4ONLY, ARPA]))
      else Cname(WireName.Wire(InAddr(Quad(p, x))))
  }

  const DIGITS := "0123456789abcdef"

  // The table knows the digits, in either case, by their place, and nothing else.
  lemma Hex16Is(c: byte)
    ensures forall n :: 0 <= n < 16 && WireName.ToLower(c) == DIGITS[n] as int ==> Hex16(c) == 16 * n
    ensures (forall n :: 0 <= n < 16 ==> WireName.ToLower(c) != DIGITS[n] as int) ==> Hex16(c) == 1
  {
    var d := WireName.ToLower(c);
    if 0x30 <= d <= 0x39 {
      assert DIGITS[d - 0x30] as int == d;
    } else if 0x61 <= d <= 0x66 {
      assert DIGITS[d - 0x61 + 10] as int == d;
    }
  }

  // A name made of hexadecimal digits, one to a label.
  lemma DigitIs(ndata: Octets, m: nat)
    requires 2 * m + 1 < |ndata|
    ensures Digit(ndata, m) <==>
            ndata[2 * m] == 1 && exists n :: 0 <= n < 16 && WireName.ToLower(ndata[2 * m + 1]) == DIGITS[n] as int
    ensures forall n :: 0 <= n < 16 && WireName.ToLower(ndata[2 * m + 1]) == DIGITS[n] as int ==> Nibble(ndata, m) == n
  {
    hide Hex16, WireName.ToLower;
    Hex16Is(ndata[2 * m + 1]);
  }

  // Names that differ only in case have the same answer.
  lemma CaseDoesNotMatter(zlen: nat, a: Octets, b: Octets)
    requires |a| == |b| && forall i :: 0 <= i < |a| ==> WireName.ToLower(a[i]) == WireName.ToLower(b[i])
    ensures Lookup(zlen, a) == Lookup(zlen, b)
  {
    forall m | 0 <= m < |a| / 2
      ensures (Digit(a, m) <==> Digit(b, m)) && Nibble(a, m) == Nibble(b, m)
    {
    }
    hide Digit, Nibble, ReservedZero, IsIpv4Only, Quad, PrefixOf;
    assert Value(a) == Value(b);
  }

  // ------------------------------------------------------------ dns64_rdata

  // The octets written for one octet of the address.
  function DecimalWire(c: byte): seq<byte> {
    WireName.WireLabel(DecimalLabel(c))
  }

  lemma DecimalDigits(c: byte)
    ensures DecimalWire(c) ==
            if c > 99 then [3, 48 + c / 100, 48 + c % 100 / 10, 48 + c % 100 % 10]
            else if c > 9 then [2, 48 + c / 10, 48 + c % 10]
            else [1, 48 + c]
  {
    if c > 99 {
      assert Decimal(c) == Decimal(c / 10) + [48 + c % 10];
      assert Decimal(c / 10) == Decimal(c / 10 / 10) + [48 + c / 10 % 10];
      assert c / 10 / 10 == c / 100 && c / 10 % 10 == c % 100 / 10 && c % 10 == c % 100 % 10;
    } else if c > 9 {
      assert Decimal(c) == Decimal(c / 10) + [48 + c % 10];
    }
  }

  // Writes octets from position j on.
  method PutAll(a: array<byte>, j: nat, octets: seq<byte>) returns (j': nat)
    requires j + |octets| <= a.Length
    modifies a
    ensures j' == j + |octets| && a[..j'] == old(a[..j]) + octets
  {
    j' := j;
    var k := 0;
    while k < |octets|
      invariant k <= |octets| && j' == j + k && a[..j'] == old(a[..j]) + octets[..k]
    {
      a[j'] := octets[k];
      TakeNext(octets, k);
      ConcatAssoc(old(a[..j]), octets[..k], [octets[k]]);
      assert a[..j' + 1] == a[..j'] + [octets[k]];
      j', k := j' + 1, k + 1;
    }
    assert octets[..k] == octets;
  }

  // One octet of the address in decimal, with the branches of the program.
  method PutDecimal(rdata: array<byte>, j: nat, c: byte) returns (j': nat)
    requires j + 4 <= rdata.Length
    modifies rdata
    ensures j' == j + |DecimalWire(c)| <= j + 4 && rdata[..j'] == old(rdata[..j]) + DecimalWire(c)
  {
    DecimalDigits(c);
    if c > 99 {
      j' := PutAll(rdata, j, [3, 48 + c / 100, 48 + c % 100 / 10, 48 + c % 100 % 10]);
    } else if c > 9 {
      j' := PutAll(rdata, j, [2, 48 + c / 10, 48 + c % 10]);
    } else {
      j' := PutAll(rdata, j, [1, 48 + c]);
    }
  }

  // The places that dns64_rdata reads, beginning with start: it skips place 7.
  function Reads(start: nat, n: nat): (r: seq<nat>)
    ensures |r| == n
    decreases n
  {
    if n == 0 then [] else [start] + Reads(if start + 1 == 7 then 8 else start + 1, n - 1)
  }

  function Start(p: nat): nat {
    if p == 32 then 8 else if p == 40 then 6 else if p == 48 then 5 else if p == 56 then 4 else if p == 64 then 3 else 0
  }

  lemma ReadsPlaces(p: nat)
    ensures Reads(Start(p), 4) == Places(p)
  {
    var s := Start(p);
    var s1 := if s + 1 == 7 then 8 else s + 1;
    var s2 := if s1 + 1 == 7 then 8 else s1 + 1;
    var s3 := if s2 + 1 == 7 then 8 else s2 + 1;
    assert Reads(s, 4) == [s] + Reads(s1, 3);
    assert Reads(s1, 3) == [s1] + Reads(s2, 2);
    assert Reads(s2, 2) == [s2] + Reads(s3, 1);
  }

  // Labels in decimal for the octets at the first n places.
  ghost function Quads(v: seq<byte>, r: seq<nat>, n: nat): (ls: seq<WireName.Label>)
    requires n <= |r| && forall i :: 0 <= i < |r| ==> r[i] < |v|
    ensures |ls| == n && forall i :: 0 <= i < n ==> ls[i] == DecimalLabel(v[r[i]])
  {
    seq<WireName.Label>(n, i requires 0 <= i < n => DecimalLabel(v[r[i]]))
  }

  lemma QuadsNext(v: seq<byte>, r: seq<nat>, i: nat)
    requires i < |r| && forall m :: 0 <= m < |r| ==> r[m] < |v|
    ensures WireName.WireLabels(Quads(v, r, i + 1)) == WireName.WireLabels(Quads(v, r, i)) + DecimalWire(v[r[i]])
  {
    var l := DecimalLabel(v[r[i]]);
    assert Quads(v, r, i + 1) == Quads(v, r, i) + [l];
    WireName.WireSnoc(Quads(v, r, i), l);
    ConcatAssoc(WireName.WireLabels(Quads(v, r, i)), [|l|], l);
  }

  lemma ReadsNext(start: nat, n: nat, r: seq<nat>)
    requires n > 0 && r == Reads(start, n)
    ensures r[0] == start && r[1..] == Reads(if start + 1 == 7 then 8 else start + 1, n - 1)
  {
  }

  // The loop of dns64_rdata
  method PutQuad(v: array<byte>, first: nat, rdata: array<byte>, ghost r: seq<nat>) returns (j: nat)
    requires v.Length == 16 && rdata.Length == 30 && v != rdata
    requires r == Reads(first, 4) && forall i :: 0 <= i < 4 ==> r[i] < 16
    modifies rdata
    ensures j <= 16 && rdata[..j] == WireName.WireLabels(Quads(v[..], r, 4))
  {
    hide WireName.WireLabels, DecimalWire, DecimalLabel, Reads, Decimal, Quads;
    var start: nat, i: nat := first, 0;
    j := 0;
    while i < 4
      invariant i <= 4 && j <= 4 * i
      invariant Reads(start, 4 - i) == r[i..]
      invariant rdata[..j] == WireName.WireLabels(Quads(v[..], r, i))
    {
      ReadsNext(start, 4 - i, r[i..]);
      assert r[i..][1..] == r[i + 1..];
      var c := v[start];
      start := start + 1;
      if start == 7 {
        start := start + 1;
      }
      QuadsNext(v[..], r, i);
      j := PutDecimal(rdata, j, c);
      i := i + 1;
    }
  }

  // dns64_rdata
  method Rdata(v: array<byte>, p: nat, rdata: array<byte>) returns (len: nat)
    requires v.Length == 16 && rdata.Length == 30 && v != rdata
    modifies rdata
    ensures var r := Places(p);
            len <= 30 && rdata[..len] == WireName.Wire(InAddr([v[r[0]], v[r[1]], v[r[2]], v[r[3]]]))
  {
    ghost var r := Places(p);
    ReadsPlaces(p);
    hide WireName.WireLabels, DecimalLabel, Places, Reads;
    var j := PutQuad(v, Start(p), rdata, r);
    QuadsWire(v[..], r);
    len := PutAll(rdata, j, TAIL);
  }

  lemma QuadsWire(v: seq<byte>, r: seq<nat>)
    requires |r| == 4 && forall i :: 0 <= i < 4 ==> r[i] < |v|
    ensures WireName.WireLabels(Quads(v, r, 4)) + TAIL ==
            WireName.Wire(InAddr([v[r[0]], v[r[1]], v[r[2]], v[r[3]]]))
  {
    TailWire();
    assert InAddr([v[r[0]], v[r[1]], v[r[2]], v[r[3]]]) == Quads(v, r, 4) + [IN_ADDR, ARPA];
    WireName.WireConcat(Quads(v, r, 4), [IN_ADDR, ARPA]);
    hide WireName.WireLabels;
    ConcatAssoc(WireName.WireLabels(Quads(v, r, 4)), WireName.WireLabels([IN_ADDR, ARPA]), [0]);
  }

  const TAIL: Octets := [7, 105, 110, 45, 97, 100, 100, 114, 4, 97, 114, 112, 97, 0]

  lemma TailWire()
    ensures WireName.Wire([IN_ADDR, ARPA]) == TAIL
  {
    assert [IN_ADDR, ARPA][1..] == [ARPA] && [ARPA][1..] == [];
    assert WireName.WireLabels([ARPA]) == [4, 97, 114, 112, 97];
    assert WireName.WireLabels([IN_ADDR, ARPA]) == WireName.WireLabel(IN_ADDR) + WireName.WireLabels([ARPA]);
  }

  // ------------------------------------------------------------ dns64_cname

  // The array v after t nibbles of the name, when the first goes to nibble place
  // o: whole octets, and in an octet that has only one nibble yet, that nibble
  // in the upper half.
  ghost predicate Packed(x: seq<nibble>, o: nat, t: nat, v: seq<byte>)
    requires t <= |x| && o <= 1
  {
    |v| == 16 && forall j :: 0 <= j < 16 ==>
      v[j] == if 2 * j + 1 < t + o then At(x, o, 2 * j) + 16 * At(x, o, 2 * j + 1)
              else if 2 * j < t + o then 16 * At(x, o, 2 * j)
              else 0
  }

  // The nibble that goes to place i.
  ghost function At(x: seq<nibble>, o: nat, i: nat): (n: int)
    ensures 0 <= n < 16
  {
    if o <= i < |x| + o then x[i - o] else 0
  }

  lemma PackNext(x: seq<nibble>, o: nat, t: nat, v: seq<byte>)
    requires t < |x| && o <= 1 && (t + o) / 2 < 16 && Packed(x, o, t, v)
    ensures var k := (t + o) / 2;
            Packed(x, o, t + 1, v[k := 16 * (x[t] as int) + v[k] / 16])
  {
    var i := t + o;
    assert At(x, o, i) == x[t];
  }

  // The loop over the labels; good when the name consists of nibbles.
  method Unpack(ndata: Octets, v: array<byte>) returns (good: bool)
    requires |ndata| % 2 == 0 && |ndata| <= 64 && v.Length == 16 && forall j :: 0 <= j < 16 ==> v[j] == 0
    modifies v
    ensures good <==> AllDigits(ndata)
    ensures good ==> Packed(Value(ndata), |Value(ndata)| % 2, |Value(ndata)|, v[..])
  {
    ghost var x, t := Value(ndata), 0;
    ghost var w := |x|;
    var o := if |ndata| % 4 == 2 then 1 else 0;
    Offset(|ndata|);
    var i, at, j := o, 0, |ndata|;
    assert Packed(x, o, 0, v[..]);
    hide Packed, Digit, Value;
    while j != 0
      invariant 0 <= t <= w && at == 2 * t && j == 2 * w - 2 * t && i == t + o
      invariant forall m :: 0 <= m < t ==> Digit(ndata, m)
      invariant Packed(x, o, t, v[..])
      decreases j
    {
      assert i / 2 < 16; // INSIST((i / 2) < sizeof(v))
      var ok := UnpackLabel(ndata, v, at, i, x, o, t);
      if !ok {
        return false;
      }
      j, at, i, t := j - 2, at + 2, i + 1, t + 1;
    }
    return true;
  }

  lemma Offset(n: nat)
    requires n % 2 == 0 && n <= 64
    ensures var o := if n % 4 == 2 then 1 else 0;
            o == n / 2 % 2 && n / 2 + o <= 32
  {
  }

  // One label.
  method UnpackLabel(ndata: Octets, v: array<byte>, at: nat, i: nat, ghost x: seq<nibble>, ghost o: nat, ghost t: nat)
    returns (ok: bool)
    requires at == 2 * t && at + 1 < |ndata| && i == t + o && v.Length == 16 && i / 2 < 16
    requires x == Value(ndata) && o <= 1 && t < |x| && Packed(x, o, t, v[..])
    modifies v
    ensures ok <==> Digit(ndata, t)
    ensures ok ==> Packed(x, o, t + 1, v[..])
  {
    hide Packed, Hex16;
    if ndata[at] != 1 {
      return false;
    }
    var n := Hex16(ndata[at + 1]);
    if n == 1 {
      return false;
    }
    Scaled(ndata[at + 1]);
    PackNext(x, o, t, v[..]);
    v[i / 2] := n + v[i / 2] / 16; // n has its low half clear, so this is n | v >> 4
    return true;
  }

  lemma Scaled(c: byte)
    requires Hex16(c) != 1
    ensures Hex16(c) <= 240 && Hex16(c) == 16 * (Hex16(c) / 16)
  {
  }

  // The octet that the program compares for the reserved bits holds those of them
  // that the name determines.
  lemma ReservedOctet(p: nat, x: seq<nibble>, v: seq<byte>)
    requires IsPrefix(p) && p <= 64 && 0 < |x| <= 32 && Packed(x, |x| % 2, |x|, v)
    requires 4 * |x| > 64 - p
    ensures var k := (2 * |x| - 1) / 4 - (64 - p) / 8;
            0 <= k < 16 && (v[k] == 0 <==> ReservedZero(p, x))
  {
    var n, o, m := |x|, |x| % 2, (64 - p) / 4;
    var k := (2 * n - 1) / 4 - (64 - p) / 8;
    assert (64 - p) / 8 == m / 2 && m % 2 == 0;
    assert 2 * k + 1 == n - 1 - m + o;
    assert v[k] == At(x, o, 2 * k) + 16 * At(x, o, 2 * k + 1);
    hide Packed;
    assert At(x, o, 2 * k + 1) == FromTop(x, m);
    assert At(x, o, 2 * k) == FromTop(x, m + 1);
  }

  // dns64_cname; the name is not empty, since the origin is looked up elsewhere
  method Dns64Cname(zlen: nat, ndata: Octets) returns (a: Answer)
    requires |ndata| > 0
    ensures a == Lookup(zlen, ndata)
  {
    var nlen := |ndata|;
    if zlen + nlen > 74 || zlen < 10 || nlen % 2 != 0 {
      return NotFound;
    }
    var v := new byte[16](_ => 0);
    var good := Unpack(ndata, v);
    if !good {
      return NotFound;
    }
    ghost var x := Value(ndata);
    var p := PrefixOf(zlen);
    if p.None? {
      return NotFound;
    }
    var reserved := CheckReserved(p.value, nlen, v, x);
    if !reserved {
      return NotFound;
    }
    if nlen + zlen != 74 {
      return EmptyNode;
    }
    a := Finish(p.value, v, x);
  }

  // The comparison of the reserved octet, per prefix length.
  method CheckReserved(p: nat, nlen: nat, v: array<byte>, ghost x: seq<nibble>) returns (zero: bool)
    requires IsPrefix(p) && v.Length == 16 && nlen == 2 * |x| && 0 < nlen <= 64 && nlen + 10 + p / 2 <= 74
    requires Packed(x, |x| % 2, |x|, v[..])
    ensures zero <==> ReservedZero(p, x)
  {
    if p <= 64 && 4 * |x| > 64 - p {
      ReservedOctet(p, x, v[..]);
    }
    if p == 32 {
      return !(nlen > 16 && v[(nlen - 1) / 4 - 4] != 0);
    } else if p == 40 {
      return !(nlen > 12 && v[(nlen - 1) / 4 - 3] != 0);
    } else if p == 48 {
      return !(nlen > 8 && v[(nlen - 1) / 4 - 2] != 0);
    } else if p == 56 {
      return !(nlen > 4 && v[(nlen - 1) / 4 - 1] != 0);
    } else if p == 64 {
      return v[(nlen - 1) / 4] == 0;
    }
    return true;
  }

  // A name of full length: the record it owns.
  method Finish(p: nat, v: array<byte>, ghost x: seq<nibble>) returns (a: Answer)
    requires v.Length == 16 && |x| % 2 == 0 && |x| <= 32 && Packed(x, 0, |x|, v[..])
    ensures a == if IsIpv4Only(x) then Ptr(WireName.Wire([IPV4ONLY, ARPA])) else Cname(WireName.Wire(InAddr(Quad(p, x))))
  {
    var rdata := new byte[30];
    forall j | 0 <= j < 16
      ensures v[j] == Octet(x, j)
    {
    }
    var len := Rdata(v, p, rdata);
    if (v[0] == 170 || v[0] == 171) && v[1] == 0 && v[2] == 0 && v[3] == 192 {
      Ipv4OnlyWire();
      return Ptr([8, 105, 112, 118, 52, 111, 110, 108, 121, 4, 97, 114, 112, 97, 0]);
    }
    return Cname(rdata[..len]);
  }

  lemma Ipv4OnlyWire()
    ensures WireName.Wire([IPV4ONLY, ARPA]) == [8, 105, 112, 118, 52, 111, 110, 108, 121, 4, 97, 114, 112, 97, 0]
  {
    assert [IPV4ONLY, ARPA][1..] == [ARPA] && [ARPA][1..] == [];
    assert WireName.WireLabels([ARPA]) == [4, 97, 114, 112, 97];
    assert WireName.WireLabels([IPV4ONLY, ARPA]) == WireName.WireLabel(IPV4ONLY) + WireName.WireLabels([ARPA]);
  }

  // -------------------------------------------------- which names exist

  // A name exists exactly when it is, or is an ancestor of, a name of full
  // length that has a record.
  lemma NodeExists(zlen: nat, ndata: Octets)
    ensures Lookup(zlen, ndata) != NotFound <==> exists front :: HasRecord(zlen, front, ndata)
  {
    NameMeans(zlen, ndata);
    hide Lookup, HasRecord, AllDigits, Value, ReservedZero;
    if Lookup(zlen, ndata) != NotFound {
      var front := Zeros((74 - zlen - |ndata|) / 2);
      Extended(front, ndata);
      ExtendedReserved(PrefixOf(zlen).value, Value(front), Value(ndata));
      RecordMeans(zlen, front, ndata);
    }
    if front :| HasRecord(zlen, front, ndata) {
      RecordMeans(zlen, front, ndata);
      Extended(front, ndata);
      ExtendedReserved(PrefixOf(zlen).value, Value(front), Value(ndata));
    }
  }

  lemma NameMeans(zlen: nat, ndata: Octets)
    ensures Lookup(zlen, ndata) != NotFound <==>
            zlen + |ndata| <= 74 && AllDigits(ndata) && PrefixOf(zlen).Some? &&
            ReservedZero(PrefixOf(zlen).value, Value(ndata))
    ensures AllDigits(ndata) ==> |ndata| % 2 == 0
  {
  }

  lemma RecordMeans(zlen: nat, front: Octets, ndata: Octets)
    ensures HasRecord(zlen, front, ndata) <==>
            |front| % 2 == 0 && zlen + |front| + |ndata| == 74 && AllDigits(front + ndata) && PrefixOf(zlen).Some? &&
            ReservedZero(PrefixOf(zlen).value, Value(front + ndata))
  {
  }

  // The name with the labels front before it has full length and a record.
  ghost predicate HasRecord(zlen: nat, front: Octets, ndata: Octets) {
    |front| % 2 == 0 && (Lookup(zlen, front + ndata).Cname? || Lookup(zlen, front + ndata).Ptr?)
  }

  // Labels with the digit zero.
  ghost function Zeros(n: nat): (s: Octets)
    ensures |s| == 2 * n && AllDigits(s) && forall m :: 0 <= m < n ==> Value(s)[m] == 0
  {
    seq<byte>(2 * n, i => if i % 2 == 0 then 1 else 0x30)
  }

  lemma Extended(front: Octets, ndata: Octets)
    requires |front| % 2 == 0
    ensures AllDigits(front + ndata) <==> AllDigits(front) && AllDigits(ndata)
    ensures |ndata| % 2 == 0 ==> Value(front + ndata) == Value(front) + Value(ndata)
  {
    var s, k := front + ndata, |front| / 2;
    forall m | 0 <= m < |front| / 2
      ensures Digit(s, m) == Digit(front, m) && Nibble(s, m) == Nibble(front, m)
    {
    }
    forall m | 0 <= m < |ndata| / 2
      ensures Digit(s, k + m) == Digit(ndata, m) && Nibble(s, k + m) == Nibble(ndata, m)
    {
      assert s[2 * (k + m)] == ndata[2 * m] && s[2 * (k + m) + 1] == ndata[2 * m + 1];
    }
    if AllDigits(s) {
      forall m | 0 <= m < |ndata| / 2
        ensures Digit(ndata, m)
      {
        assert Digit(s, k + m);
      }
    }
    if AllDigits(front) && AllDigits(ndata) {
      forall m | 0 <= m < |s| / 2
        ensures Digit(s, m)
      {
        if m >= k {
          assert Digit(ndata, m - k) && m == k + (m - k);
        }
      }
    }
  }

  // Nibbles added at the end of the address leave the reserved octet alone, or
  // determine it.
  lemma ExtendedReserved(p: nat, y: seq<nibble>, x: seq<nibble>)
    ensures ReservedZero(p, y + x) ==> ReservedZero(p, x)
    ensures ReservedZero(p, x) && (forall m :: 0 <= m < |y| ==> y[m] == 0) ==> ReservedZero(p, y + x)
  {
    forall m: nat
      ensures FromTop(y + x, m) == if m < |x| then FromTop(x, m) else FromTop(y, m - |x|)
    {
    }
  }
}
