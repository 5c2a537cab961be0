/** Machine integer widths, bytes and the big-endian word used on the RV wire. */
module Base {

  datatype Option<T> = None | Some(value: T)

  newtype byte = x: int | 0 <= x < 256

  const U16: int := 0x1_0000
  const U32: int := 0x1_0000_0000

  type uint16 = x: int | 0 <= x < U16
  type uint32 = x: int | 0 <= x < U32

  /** The all-ones 32-bit value, `~(uint32_t) 0`. */
  const AllOnes: uint32 := U32 - 1

  /** `x + 1` on a 32-bit unsigned counter, wrapping to 0. */
  function Inc32(x: uint32): (r: uint32)
    ensures x < AllOnes ==> r == x + 1
    ensures x == AllOnes ==> r == 0
  {
    (x + 1) % U32
  }

  /** `x - 1` on a 32-bit unsigned counter, wrapping to the all-ones value. */
  function Dec32(x: uint32): (r: uint32)
    ensures x > 0 ==> r == x - 1
    ensures x == 0 ==> r == AllOnes
  {
    (x - 1) % U32
  }

  /** `get_u32<MD_BIG>`: the big-endian word held by the first four bytes. */
  function BigEndian32(b: seq<byte>): (r: uint32)
    requires |b| >= 4
    ensures r < 0x100_0000 <==> b[0] == 0
  {
    b[0] as int * 0x100_0000 + b[1] as int * 0x1_0000 + b[2] as int * 0x100 + b[3] as int
  }

  /** The four bytes of `w` in big-endian order. */
  function BigEndianBytes(w: uint32): (r: seq<byte>)
    ensures |r| == 4
  {
    [(w / 0x100_0000) as byte, (w / 0x1_0000 % 0x100) as byte, (w / 0x100 % 0x100) as byte, (w % 0x100) as byte]
  }

  lemma BigEndianRoundTrip(w: uint32)
    ensures BigEndian32(BigEndianBytes(w)) == w
  {
    var x := w as int;
    var a, r1 := x / 0x100_0000, x % 0x100_0000;
    var b, r2 := r1 / 0x1_0000, r1 % 0x1_0000;
    var c, d := r2 / 0x100, r2 % 0x100;
    assert x / 0x1_0000 == a * 0x100 + b;
    assert x / 0x100 == a * 0x1_0000 + b * 0x100 + c;
    assert x % 0x100 == d;
    var bs := BigEndianBytes(w);
    assert bs[0] as int == a && bs[1] as int == b && bs[2] as int == c && bs[3] as int == d;
  }

  /** Concatenation of the big-endian encodings of a sequence of words. */
  function Words(ws: seq<uint32>): (r: seq<byte>)
    ensures |r| == 4 * |ws|
  {
    if ws == [] then [] else BigEndianBytes(ws[0]) + Words(ws[1..])
  }

  /** Encoding one more word appends its four bytes. */
  lemma {:induction false} WordsSnoc(ws: seq<uint32>, w: uint32)
    ensures Words(ws + [w]) == Words(ws) + BigEndianBytes(w)
  {
    if ws != [] {
      assert (ws + [w])[1..] == ws[1..] + [w];
      WordsSnoc(ws[1..], w);
    }
  }
}
