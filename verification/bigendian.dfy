/**
 * Big-endian two's-complement conversion between `i32` and four bytes:
 * Rust's `i32::from_be_bytes` (used on both integer fields of a frame) and
 * `i32::to_be_bytes` (used on the reply).
 */
module BigEndian {
  import opened Ints

  /** Rust `u8`. */
  type Byte = b: int | 0 <= b < 0x100

  /** `i32::from_be_bytes`: the most significant byte first; its top bit is the sign. */
  function FromBeBytes(b: seq<Byte>): (x: I32)
    requires |b| == 4
    ensures x < 0 <==> b[0] >= 0x80
  {
    var u := b[0] as int * 0x100_0000 + b[1] as int * 0x1_0000 + b[2] as int * 0x100 + b[3] as int;
    if u >= 0x8000_0000 then u - 0x1_0000_0000 else u
  }

  /** `i32::to_be_bytes`: the 32-bit two's-complement pattern of `x`, most significant byte first. */
  function ToBeBytes(x: I32): (b: seq<Byte>)
    ensures |b| == 4
    ensures b[0] >= 0x80 <==> x < 0
  {
    var u := if x < 0 then x as int + 0x1_0000_0000 else x as int;
    [u / 0x100_0000, u / 0x1_0000 % 0x100, u / 0x100 % 0x100, u % 0x100]
  }

  /** Decoding the reply encoding gives back the integer. */
  lemma FromToBeBytes(x: I32)
    ensures FromBeBytes(ToBeBytes(x)) == x
  {
    var u := if x < 0 then x as int + 0x1_0000_0000 else x as int;
    var b := ToBeBytes(x);
    assert u == b[0] * 0x100_0000 + (u % 0x100_0000);
    assert u % 0x100_0000 == b[1] * 0x1_0000 + (u % 0x1_0000);
    assert u % 0x1_0000 == b[2] * 0x100 + b[3];
  }

  /** Every four bytes are the encoding of the integer they decode to. */
  lemma ToFromBeBytes(b: seq<Byte>)
    requires |b| == 4
    ensures ToBeBytes(FromBeBytes(b)) == b
  {
    var x := FromBeBytes(b);
    var u := b[0] as int * 0x100_0000 + b[1] as int * 0x1_0000 + b[2] as int * 0x100 + b[3] as int;
    var e := ToBeBytes(x);
    assert (if x < 0 then x as int + 0x1_0000_0000 else x as int) == u;
    var b0, b1, b2, b3 := b[0] as int, b[1] as int, b[2] as int, b[3] as int;
    DivModOf(b0, 0x100_0000, b1 * 0x1_0000 + b2 * 0x100 + b3);
    DivModOf(b0 * 0x100 + b1, 0x1_0000, b2 * 0x100 + b3);
    DivModOf(b0, 0x100, b1);
    DivModOf(b0 * 0x1_0000 + b1 * 0x100 + b2, 0x100, b3);
    DivModOf(b0 * 0x100 + b1, 0x100, b2);
  }

  /** The unsigned value of bytes read most significant first: each byte shifts the ones before it up by eight bits. */
  function BeValue(b: seq<Byte>): nat
  {
    if |b| == 0 then 0 else 0x100 * BeValue(b[..|b| - 1]) + b[|b| - 1] as int
  }

  /** `from_be_bytes` reads the big-endian value of its four bytes as a 32-bit two's-complement integer. */
  lemma FromBeBytesIsFold(b: seq<Byte>)
    requires |b| == 4
    ensures FromBeBytes(b) == WrapI32(BeValue(b))
  {
    var u := b[0] as int * 0x100_0000 + b[1] as int * 0x1_0000 + b[2] as int * 0x100 + b[3] as int;
    assert b[..1][..0] == [];
    assert BeValue(b[..1]) == b[0] as int;
    assert b[..2][..1] == b[..1];
    assert b[..3][..2] == b[..2];
    assert BeValue(b[..2]) == 0x100 * b[0] as int + b[1] as int;
    assert BeValue(b[..3]) == 0x100 * (0x100 * b[0] as int + b[1] as int) + b[2] as int;
    assert BeValue(b) == u;
    if u >= 0x8000_0000 {
      DivModOf(1, 0x1_0000_0000, u - 0x8000_0000);
    } else {
      DivModOf(0, 0x1_0000_0000, u + 0x8000_0000);
    }
  }

  /** Fixed vectors with distinct bytes: the first byte is the most significant, and its top bit carries the sign. */
  lemma ByteOrderVectors()
    ensures FromBeBytes([0x12, 0x34, 0x56, 0x78]) == 0x1234_5678
    ensures FromBeBytes([0xFF, 0xFF, 0xFF, 0xFE]) == -2
    ensures FromBeBytes([0x80, 0, 0, 0]) == I32Min
    ensures FromBeBytes([0x7F, 0xFF, 0xFF, 0xFF]) == I32Max
    ensures ToBeBytes(0x1234_5678) == [0x12, 0x34, 0x56, 0x78]
    ensures ToBeBytes(-2) == [0xFF, 0xFF, 0xFF, 0xFE]
    ensures ToBeBytes(I32Min) == [0x80, 0, 0, 0]
  {
    ToFromBeBytes([0x12, 0x34, 0x56, 0x78]);
    ToFromBeBytes([0xFF, 0xFF, 0xFF, 0xFE]);
    ToFromBeBytes([0x80, 0, 0, 0]);
  }
}
