/**
 Values in the bytes of a row (db_value_to_phy and db_phy_to_value of apps/antelope/result.c): high byte first, in two
 bytes for INT and in four for LONG.
 */
module PhysicalValues {
  import opened Bytes
  import opened Lvm
  import opened LvmDerive
  import opened RelationSelect
  import opened RelationAnswers

  function Encoded(domain: Domain, v: int): (bytes: seq<byte>)
    requires !domain.StringDomain?
    ensures |bytes| == if domain.IntDomain? then 2 else 4
  {
    match domain
    case IntDomain => [v / 256 % 256, v % 256]
    case LongDomain => [v / 0x100_0000 % 256, v / 0x1_0000 % 256, v / 256 % 256, v % 256]
  }

  // db_value_to_phy
  method ValueToPhy(ptr: array<byte>, at: nat, domain: Domain, value: int)
    requires !domain.StringDomain? && at + |Encoded(domain, value)| <= ptr.Length
    modifies ptr
    ensures ptr[..] == old(ptr[..at]) + Encoded(domain, value) + old(ptr[at + |Encoded(domain, value)|..])
  {
    if domain.IntDomain? {
      ptr[at] := value / 256 % 256;
      ptr[at + 1] := value % 256;
    } else {
      ptr[at] := value / 0x100_0000 % 256;
      ptr[at + 1] := value / 0x1_0000 % 256;
      ptr[at + 2] := value / 256 % 256;
      ptr[at + 3] := value % 256;
    }
  }

  /** What is stored is read back exactly if the column can have the value: an INT on 32 bits has no negative ones. */
  lemma StoredReadIff(domain: Domain, ints: Ints, v: int)
    requires !domain.StringDomain? && IsLong(v)
    ensures Decode(Encoded(domain, v), domain, ints) == v <==> KeyMin(domain, ints) <= v <= KeyMax(domain, ints)
  {
    if domain.IntDomain? {
      IntRead(ints, v);
      IntKept(ints, v);
    } else {
      LongRead(ints, v);
    }
  }

  lemma IntKept(ints: Ints, v: int)
    ensures ToInt(ints, v % 0x1_0000) == v <==> KeyMin(IntDomain, ints) <= v <= KeyMax(IntDomain, ints)
  {
  }

  lemma IntRead(ints: Ints, v: int)
    ensures Decode(Encoded(IntDomain, v), IntDomain, ints) == ToInt(ints, v % 0x1_0000)
  {
    TwoDigits(v);
  }

  lemma LongRead(ints: Ints, v: int)
    requires IsLong(v)
    ensures Decode(Encoded(LongDomain, v), LongDomain, ints) == v
  {
    FourDigits(v);
    SignedLong(v);
  }

  lemma SignedLong(v: int)
    requires IsLong(v)
    ensures v % 0x1_0000_0000 == if v < 0 then v + 0x1_0000_0000 else v
  {
  }

  lemma TwoDigits(v: int)
    ensures (v / 256 % 256) * 256 + v % 256 == v % 0x1_0000
  {
  }

  lemma FourDigits(v: int)
    ensures (v / 0x100_0000 % 256) * 0x100_0000 + (v / 0x1_0000 % 256) * 0x1_0000 + (v / 256 % 256) * 256 + v % 256 ==
      v % 0x1_0000_0000
  {
    var w := v / 0x1_0000;
    assert v / 0x100_0000 == w / 256;
    TwoDigits(w);
    TwoDigits(v);
    assert v % 0x1_0000_0000 == (w % 0x1_0000) * 0x1_0000 + v % 0x1_0000;
  }

  // A number in its last byte and the rest
  lemma LastByte(v: int, high: int, low: byte)
    requires v == 256 * high + low
    ensures v / 256 == high && v % 256 == low
  {
  }

  lemma HighBytes(v: int)
    ensures v / 0x1_0000 == v / 256 / 256 && v / 0x100_0000 == v / 256 / 256 / 256
  {
  }

  lemma ReadIntStored(ints: Ints, bytes: seq<byte>)
    requires |bytes| == 2
    ensures Encoded(IntDomain, Decode(bytes, IntDomain, ints)) == bytes
  {
    var v := Decode(bytes, IntDomain, ints);
    var h1: int := if v < 0 then bytes[0] as int - 256 else bytes[0];
    LastByte(v, h1, bytes[1]);
    LastByte(h1, if v < 0 then -1 else 0, bytes[0]);
  }

  lemma ReadLongStored(ints: Ints, bytes: seq<byte>)
    requires |bytes| == 4
    ensures Encoded(LongDomain, Decode(bytes, LongDomain, ints)) == bytes
  {
    var v := Decode(bytes, LongDomain, ints);
    var h1: int := if v < 0 then bytes[0] as int - 256 else bytes[0];
    var h2: int := 256 * h1 + bytes[1];
    var h3: int := 256 * h2 + bytes[2];
    LastByte(v, h3, bytes[3]);
    LastByte(h3, h2, bytes[2]);
    LastByte(h2, h1, bytes[1]);
    LastByte(h1, if v < 0 then -1 else 0, bytes[0]);
    HighBytes(v);
  }

  /** What is read is stored as it was. */
  lemma ReadStored(domain: Domain, ints: Ints, bytes: seq<byte>)
    requires !domain.StringDomain? && |bytes| == if domain.IntDomain? then 2 else 4
    ensures Encoded(domain, Decode(bytes, domain, ints)) == bytes
  {
    if domain.IntDomain? {
      ReadIntStored(ints, bytes);
    } else {
      ReadLongStored(ints, bytes);
    }
  }

  /** An INT is the LONG with the same number. */
  lemma IntIsLong(a: byte, b: byte, ints: Ints)
    ensures var fill: byte := if ints.Bits16? && a >= 128 then 255 else 0;
      Decode([a, b], IntDomain, ints) == Decode([fill, fill, a, b], LongDomain, ints)
  {
  }

  /** Bytes count like the digits of an odometer, from 0 on and up to the largest value. */
  lemma Odometer(a: byte, b: byte, c: byte, d: byte, ints: Ints)
    ensures Decode([0, 0, 0, 0], LongDomain, ints) == 0
    ensures d < 255 ==> Decode([a, b, c, d + 1], LongDomain, ints) == Decode([a, b, c, d], LongDomain, ints) + 1
    ensures c < 255 ==> Decode([a, b, c + 1, 0], LongDomain, ints) == Decode([a, b, c, 255], LongDomain, ints) + 1
    ensures b < 255 ==> Decode([a, b + 1, 0, 0], LongDomain, ints) == Decode([a, b, 255, 255], LongDomain, ints) + 1
    ensures a < 255 && a != 127 ==>
      Decode([a + 1, 0, 0, 0], LongDomain, ints) == Decode([a, 255, 255, 255], LongDomain, ints) + 1
    ensures Decode([128, 0, 0, 0], LongDomain, ints) == LONG_MIN
  {
  }
}
