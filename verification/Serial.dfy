// Serial number arithmetic on 32-bit words (section 3.2 of RFC 1982), as in
// lib/isc/serial.c.
module Serial {
  import opened Base

  // How far a is ahead of b, modulo 2^32.
  function Ahead(a: u32, b: u32): (d: u32)
    ensures d == (a - b) % TWO32
  {
    if a >= b then a - b else a - b + TWO32
  }

  // isc_serial_lt; false at the undefined distance of 2^31
  predicate Lt(a: u32, b: u32) {
    Ahead(a, b) > TWO31
  }

  // isc_serial_gt
  predicate Gt(a: u32, b: u32) {
    0 < Ahead(a, b) < TWO31
  }

  // isc_serial_ge
  predicate Ge(a: u32, b: u32) {
    a == b || Gt(a, b)
  }

  // The distance at which section 3.2 of RFC 1982 leaves the order undefined.
  predicate Opposite(a: u32, b: u32) {
    Ahead(a, b) == TWO31
  }

  function Forward(b: u32, n: nat): u32 {
    (b + n) % TWO32
  }

  // Greater means less than half a circle ahead, which is what less means seen
  // from the other side.
  lemma GtExactly(a: u32, b: u32)
    ensures Gt(a, b) <==> exists n: nat :: 0 < n < TWO31 && a == Forward(b, n)
    ensures Ge(a, b) <==> exists n: nat :: n < TWO31 && a == Forward(b, n)
    ensures Gt(a, b) <==> Lt(b, a)
  {
    assert a == Forward(b, Ahead(a, b));
    forall n: nat | n < TWO32 && a == Forward(b, n)
      ensures n == Ahead(a, b)
    {
    }
  }

  // Seen from a common limit that neither precedes, two serials compare as
  // their distances from it.
  lemma FromLimit(limit: u32, a: u32, b: u32)
    requires !Lt(a, limit) && !Lt(b, limit)
    ensures Opposite(a, b) || (Lt(a, b) <==> Ahead(a, limit) < Ahead(b, limit))
  {
  }
}
