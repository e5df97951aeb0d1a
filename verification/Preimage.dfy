/**
 Framed hash preimages. Each field is written in front of the rest, so that equal preimages can be
 taken apart field by field; the hasher is the octets fed to it.
 */
module Preimage {
  import opened Bytes

  lemma Widths()
    ensures Power(256, 2) == U16 && Power(256, 4) == U32 && Power(256, 8) == U64
  {
    assert Power(256, 1) == 256 by { assert Power(256, 0) == 1; }
    assert Power(256, 3) == 0x100_0000;
    assert Power(256, 5) == 0x100_0000_0000;
    assert Power(256, 6) == 0x1_0000_0000_0000;
    assert Power(256, 7) == 0x100_0000_0000_0000;
  }

  /* A fixed-width big-endian number, then the rest. */
  function Number(value: nat, width: nat, rest: Octets): Octets
  {
    BigEndian(value, width) + rest
  }

  /* A 64-bit length, the octets, then the rest. */
  function Prefixed(value: Octets, rest: Octets): Octets
  {
    Number(|value|, 8, value + rest)
  }

  lemma NumberFirst(x: nat, y: nat, width: nat, a: Octets, b: Octets)
    requires x < Power(256, width) && y < Power(256, width)
    requires Number(x, width, a) == Number(y, width, b)
    ensures x == y && a == b
  {
    hide BigEndian, Power;
    SplitEqual(BigEndian(x, width), a, BigEndian(y, width), b);
    BigEndianInjective(x, y, width);
  }

  lemma PrefixedFirst(x: Octets, y: Octets, a: Octets, b: Octets)
    requires |x| < U64 && |y| < U64
    requires Prefixed(x, a) == Prefixed(y, b)
    ensures x == y && a == b
  {
    hide Number;
    Widths();
    NumberFirst(|x|, |y|, 8, x + a, y + b);
    SplitEqual(x, a, y, b);
  }

  lemma FixedFirst(x: Octets, y: Octets, a: Octets, b: Octets)
    requires |x| == |y| && x + a == y + b
    ensures x == y && a == b
  {
    SplitEqual(x, a, y, b);
  }

  class Hasher {
    var fed: Octets

    constructor ()
      ensures fed == []
    {
      fed := [];
    }

    /* Whatever is still to come, what was to be fed before is fed now. */
    method Update(octets: Octets)
      modifies this
      ensures fed == old(fed) + octets
      ensures forall rest: Octets {:trigger old(fed) + (octets + rest)} :: old(fed) + (octets + rest) == fed + rest
    {
      fed := fed + octets;
      forall rest: Octets ensures old(fed) + (octets + rest) == fed + rest {
        assert old(fed) + (octets + rest) == (old(fed) + octets) + rest;
      }
    }

    method UpdateNumber(value: nat, width: nat)
      modifies this
      ensures forall rest: Octets {:trigger old(fed) + Number(value, width, rest)} :: old(fed) + Number(value, width, rest) == fed + rest
    {
      Update(BigEndian(value, width));
    }

    /* `update_length_prefixed`. */
    method UpdatePrefixed(value: Octets)
      modifies this
      ensures forall rest: Octets {:trigger old(fed) + Prefixed(value, rest)} :: old(fed) + Prefixed(value, rest) == fed + rest
    {
      UpdateNumber(|value|, 8);
      label Sized:
      Update(value);
      forall rest: Octets ensures old(fed) + Prefixed(value, rest) == fed + rest {
        assert old(fed) + Number(|value|, 8, value + rest) == old@Sized(fed) + (value + rest);
      }
    }
  }
}
