/**
 * The binary form of a value-bearing point (`NASAPoint.write` and
 * `readFields`): the parent point's fields, then the value as a Java `int`
 * in four big-endian two's-complement bytes.
 */
module ValueCodec {
  import opened Results
  import opened JavaNum

  /** The unsigned 32-bit pattern of a Java `int` (two's complement). */
  function Unsigned(v: int32): (u: int)
    ensures 0 <= u < 0x1_0000_0000
    ensures u % 0x1_0000_0000 == v % 0x1_0000_0000
  {
    if v < 0 then v + 0x1_0000_0000 else v
  }

  /** The number whose base-256 digits, most significant first, are the four bytes. */
  function BigEndian(b0: byte, b1: byte, b2: byte, b3: byte): (u: int)
    ensures 0 <= u < 0x1_0000_0000
  {
    (b0 as int) * 0x100_0000 + (b1 as int) * 0x1_0000 + (b2 as int) * 0x100 + (b3 as int)
  }

  /** `DataOutput.writeInt`: the four bytes of `v`, most significant first. */
  function WriteInt(v: int32): (bs: seq<byte>)
    ensures |bs| == 4
    ensures BigEndian(bs[0], bs[1], bs[2], bs[3]) == Unsigned(v)
  {
    var u := Unsigned(v);
    SplitBytes(u);
    [u / 0x100_0000, (u / 0x1_0000) % 0x100, (u / 0x100) % 0x100, u % 0x100]
  }

  /** A 32-bit pattern is the big-endian number of its four base-256 digits. */
  lemma SplitBytes(u: int)
    requires 0 <= u < 0x1_0000_0000
    ensures 0 <= u / 0x100_0000 < 0x100
    ensures BigEndian(u / 0x100_0000, (u / 0x1_0000) % 0x100, (u / 0x100) % 0x100, u % 0x100) == u
  {
    var b0, b1, b2, b3 := u / 0x100_0000, (u / 0x1_0000) % 0x100, (u / 0x100) % 0x100, u % 0x100;
    assert u == b0 * 0x100_0000 + (u % 0x100_0000);
    assert u % 0x100_0000 == b1 * 0x1_0000 + (u % 0x1_0000);
    assert u % 0x1_0000 == b2 * 0x100 + b3;
  }

  /** `DataInput.readInt` on its four bytes: big-endian, two's complement. */
  function ReadInt(b0: byte, b1: byte, b2: byte, b3: byte): (r: int32)
    ensures Unsigned(r) == BigEndian(b0, b1, b2, b3)
  {
    var u := BigEndian(b0, b1, b2, b3);
    if u >= 0x8000_0000 then u - 0x1_0000_0000 else u
  }

  /** Reading back what `writeInt` wrote gives the same `int`. */
  lemma ReadWriteInt(v: int32)
    ensures var bs := WriteInt(v); ReadInt(bs[0], bs[1], bs[2], bs[3]) == v
  {
    var u := Unsigned(v);
    var bs := WriteInt(v);
    assert u == bs[0] * 0x100_0000 + (u % 0x100_0000);
    assert u % 0x100_0000 == bs[1] * 0x1_0000 + (u % 0x1_0000);
    assert u % 0x1_0000 == bs[2] * 0x100 + bs[3];
  }

  /** Writing back what `readInt` read gives the same four bytes. */
  lemma WriteReadInt(b0: byte, b1: byte, b2: byte, b3: byte)
    ensures WriteInt(ReadInt(b0, b1, b2, b3)) == [b0, b1, b2, b3]
  {
    var u := b0 * 0x100_0000 + b1 * 0x1_0000 + b2 * 0x100 + b3;
    assert Unsigned(ReadInt(b0, b1, b2, b3)) == u;
    DivModUnique(u, 0x100_0000, b0, b1 * 0x1_0000 + b2 * 0x100 + b3);
    DivModUnique(u, 0x1_0000, b0 * 0x100 + b1, b2 * 0x100 + b3);
    DivModUnique(b0 * 0x100 + b1, 0x100, b0, b1);
    DivModUnique(u, 0x100, b0 * 0x1_0000 + b1 * 0x100 + b2, b3);
    DivModUnique(b0 * 0x1_0000 + b1 * 0x100 + b2, 0x100, b0 * 0x100 + b1, b2);
    DivModUnique(u, 0x100, b0 * 0x1_0000 + b1 * 0x100 + b2, b3);
  }

  /** Re-encoding the `int` read at offset `k` restores the input around it. */
  lemma ReadSplits(input: seq<byte>, k: nat)
    requires |input| >= k + 4
    ensures input[..k] + WriteInt(ReadInt(input[k], input[k + 1], input[k + 2], input[k + 3]))
            + input[k + 4..] == input
  {
    WriteReadInt(input[k], input[k + 1], input[k + 2], input[k + 3]);
    assert input[k..k + 4] == [input[k], input[k + 1], input[k + 2], input[k + 3]];
    assert input == input[..k] + input[k..k + 4] + input[k + 4..];
  }

  /** `NASAPoint.write`: the parent's bytes, then the value. */
  function Write(parent: seq<byte>, value: int32): (out: seq<byte>)
    ensures |out| == |parent| + 4 && out[..|parent|] == parent
  {
    parent + WriteInt(value)
  }

  /** What `readFields` consumed: the parent's bytes, the value, and what follows. */
  datatype Decoded = Decoded(parent: seq<byte>, value: int32, rest: seq<byte>)

  /**
   * `NASAPoint.readFields`: the parent point reads its `parentSize` bytes
   * (Point.java is not part of this model), then `readInt` reads four more.
   * A stream that ends early raises `EOFException`.
   */
  function ReadFields(input: seq<byte>, parentSize: nat): (r: Result<Decoded>)
    ensures r.Success? <==> |input| >= parentSize + 4
    ensures r.Failure? ==> r.error == EndOfInput
    ensures r.Success? ==> |r.value.parent| == parentSize
    ensures r.Success? ==> Write(r.value.parent, r.value.value) + r.value.rest == input
  {
    if |input| < parentSize + 4 then Failure(EndOfInput)
    else
      var k := parentSize;
      ReadSplits(input, k);
      Success(Decoded(input[..k], ReadInt(input[k], input[k + 1], input[k + 2], input[k + 3]),
                      input[k + 4..]))
  }

  /**
   * For a fixed parent encoding, reading what `write` produced (followed by
   * anything) gives back the parent bytes, the same value and the rest.
   */
  lemma RoundTrip(parent: seq<byte>, value: int32, rest: seq<byte>)
    ensures ReadFields(Write(parent, value) + rest, |parent|) == Success(Decoded(parent, value, rest))
  {
    var input := Write(parent, value) + rest;
    var bs := WriteInt(value);
    assert input[..|parent|] == parent;
    assert input[|parent|..|parent| + 4] == bs;
    assert input[|parent| + 4..] == rest;
    ReadWriteInt(value);
  }
}
