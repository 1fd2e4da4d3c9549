/** Variable-length numbers: writeUvarint (index/write.go) and encoding/binary's Uvarint. */
module Varints {
  import opened Bytes

  const TwoTo32: nat := 0x1_0000_0000
  const TwoTo64: nat := 0x1_0000_0000_0000_0000

  type uint32 = x: int | 0 <= x < 0x1_0000_0000

  /** binary.PutUvarint: seven bits a byte, low bits first, the top bit set on all but the last. */
  function PutUvarint(x: nat): (b: Str)
    ensures b != []
  {
    if x < 128 then [x] else [x % 128 + 128] + PutUvarint(x / 128)
  }

  /** The switch of writeUvarint; `byte(x | 0x80)` is the low seven bits with the top bit set. */
  function WriteUvarint(x: uint32): (b: Str)
    ensures 1 <= |b| <= 5
  {
    if x < 0x80 then [x]
    else if x < 0x4000 then [x % 128 + 128, x / 0x80]
    else if x < 0x20_0000 then [x % 128 + 128, x / 0x80 % 128 + 128, x / 0x4000]
    else if x < 0x1000_0000 then
      [x % 128 + 128, x / 0x80 % 128 + 128, x / 0x4000 % 128 + 128, x / 0x20_0000]
    else
      [x % 128 + 128, x / 0x80 % 128 + 128, x / 0x4000 % 128 + 128, x / 0x20_0000 % 128 + 128, x / 0x1000_0000]
  }

  /** The five cases of the switch write the standard encoding. */
  lemma WriteIsPut(x: uint32)
    ensures WriteUvarint(x) == PutUvarint(x)
  {
    var a := x / 0x80;
    var b := x / 0x4000;
    var c := x / 0x20_0000;
    var d := x / 0x1000_0000;
    assert b == a / 128 && c == b / 128 && d == c / 128;
    if 0x80 <= x < 0x4000 {
      assert PutUvarint(x) == [x % 128 + 128] + PutUvarint(a);
    } else if 0x4000 <= x < 0x20_0000 {
      assert PutUvarint(a) == [a % 128 + 128] + PutUvarint(b);
    } else if 0x20_0000 <= x < 0x1000_0000 {
      assert PutUvarint(a) == [a % 128 + 128] + PutUvarint(b);
      assert PutUvarint(b) == [b % 128 + 128] + PutUvarint(c);
    } else if 0x1000_0000 <= x {
      assert PutUvarint(a) == [a % 128 + 128] + PutUvarint(b);
      assert PutUvarint(b) == [b % 128 + 128] + PutUvarint(c);
      assert PutUvarint(c) == [c % 128 + 128] + PutUvarint(d);
    }
  }

  datatype Varint = Varint(value: nat, size: nat)

  /** The number at the front of `b`, if one ends within `b`. */
  function Scan(b: Str): Option<Varint> {
    if b == [] then None
    else if b[0] < 128 then Some(Varint(b[0], 1))
    else match Scan(b[1..])
      case None => None
      case Some(v) => Some(Varint(b[0] - 128 + 128 * v.value, v.size + 1))
  }

  /** binary.Uvarint: None where it returns a size of 0 or less (no end, or over 64 bits). */
  function Uvarint(b: Str): Option<Varint> {
    match Scan(b)
    case None => None
    case Some(v) => if v.size <= 10 && v.value < TwoTo64 then Some(v) else None
  }

  lemma {:induction false} ScanPut(x: nat, rest: Str)
    ensures Scan(PutUvarint(x) + rest) == Some(Varint(x, |PutUvarint(x)|))
    decreases x
  {
    var b := PutUvarint(x) + rest;
    if x >= 128 {
      assert b[0] == x % 128 + 128 && b[1..] == PutUvarint(x / 128) + rest;
      ScanPut(x / 128, rest);
    }
  }

  /** Reading back what was written, whatever follows it. */
  lemma UvarintRoundTrip(x: uint32, rest: Str)
    ensures Uvarint(WriteUvarint(x) + rest) == Some(Varint(x, |WriteUvarint(x)|))
  {
    WriteIsPut(x);
    ScanPut(x, rest);
  }
}
