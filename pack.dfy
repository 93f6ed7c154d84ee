/** The byte packers of pack.go: packLittle and packBig return a fresh slice,
    packLittleTo and packBigTo write into a slice the caller owns, and Uint32
    and Uint64 are the little-endian helpers. Each loop keeps the shifted
    value `b` of the source as a local and fills the slice one byte at a time.

    A Go slice `dest[off:]` handed to packLittleTo or packBigTo is modelled as
    the array it points into together with the offset `off`. */
module Pack {
  import opened Octets

  /** packLittle: the `bytes` low-order bytes of value, least significant first. */
  method PackLittle(value: U64, bytes: nat) returns (result: seq<Byte>)
    ensures |result| == bytes
    ensures forall i :: 0 <= i < bytes ==> result[i] == ByteAt(value, i)
    ensures result == LittleBytes(value, bytes)
    ensures FromLittle(result) == value % Pow256(bytes)
    ensures forall i :: 8 <= i < bytes ==> result[i] == 0
  {
    var b: nat := value;
    var buf := new Byte[bytes];
    var i := 0;
    while i < bytes
      invariant 0 <= i <= bytes
      invariant b == ShiftR(value, i)
      invariant forall k :: 0 <= k < i ==> buf[k] == ByteAt(value, k)
    {
      buf[i] := b % 256;
      ShiftRStep(value, i);
      b := b / 256;
      i := i + 1;
    }
    result := buf[..];
    forall k | 0 <= k < bytes
      ensures result[k] == LittleBytes(value, bytes)[k]
    {
      LittleBytesAt(value, bytes, k);
    }
    LittleRoundTrip(value, bytes);
    forall i | 8 <= i < bytes
      ensures result[i] == 0
    {
      Beyond64(value, i);
    }
  }

  /** packBig: the `bytes` low-order bytes of value, most significant first. */
  method PackBig(value: U64, bytes: nat) returns (result: seq<Byte>)
    ensures |result| == bytes
    ensures forall i :: 0 <= i < bytes ==> result[i] == ByteAt(value, bytes - 1 - i)
    ensures result == BigBytes(value, bytes)
    ensures forall i :: 0 <= i < bytes ==> result[i] == LittleBytes(value, bytes)[bytes - 1 - i]
    ensures FromBig(result) == value % Pow256(bytes)
    ensures forall i :: 0 <= i < bytes - 8 ==> result[i] == 0
  {
    var b: nat := value;
    var buf := new Byte[bytes];
    var i: int := bytes - 1;
    while i >= 0
      invariant -1 <= i < bytes
      invariant b == ShiftR(value, bytes - 1 - i)
      invariant forall k :: i < k < bytes ==> buf[k] == ByteAt(value, bytes - 1 - k)
    {
      buf[i] := b % 256;
      ShiftRStep(value, bytes - 1 - i);
      b := b / 256;
      i := i - 1;
    }
    result := buf[..];
    forall k | 0 <= k < bytes
      ensures result[k] == BigBytes(value, bytes)[k]
    {
      BigBytesAt(value, bytes, k);
    }
    BigIsReversedLittle(value, bytes);
    BigRoundTrip(value, bytes);
    forall i | 0 <= i < bytes - 8
      ensures result[i] == 0
    {
      Beyond64(value, bytes - 1 - i);
    }
  }

  /** A `uint` has no bits left after eight byte shifts or more. */
  lemma Beyond64(value: U64, k: nat)
    requires k >= 8
    ensures ByteAt(value, k) == 0
  {
    Pow256Mono(8, k);
    assert Pow256(8) == 0x1_0000_0000_0000_0000;
    ShiftRBeyond(value, k);
  }

  /** packLittleTo: writes the little-endian bytes of value into
      dest[off .. off + bytes] and nothing else. */
  method PackLittleTo(value: U64, bytes: nat, dest: array<Byte>, off: nat)
    requires off + bytes <= dest.Length
    modifies dest
    ensures dest[off..off + bytes] == LittleBytes(value, bytes)
    ensures forall k :: 0 <= k < dest.Length && !(off <= k < off + bytes) ==> dest[k] == old(dest[k])
  {
    var b: nat := value;
    var i := 0;
    while i < bytes
      invariant 0 <= i <= bytes
      invariant b == ShiftR(value, i)
      invariant forall k :: 0 <= k < i ==> dest[off + k] == ByteAt(value, k)
      invariant forall k :: 0 <= k < dest.Length && !(off <= k < off + i) ==> dest[k] == old(dest[k])
    {
      dest[off + i] := b % 256;
      ShiftRStep(value, i);
      b := b / 256;
      i := i + 1;
    }
    forall k | 0 <= k < bytes
      ensures dest[off..off + bytes][k] == LittleBytes(value, bytes)[k]
    {
      LittleBytesAt(value, bytes, k);
    }
  }

  /** packBigTo: writes the big-endian bytes of value into
      dest[off .. off + bytes] and nothing else. */
  method PackBigTo(value: U64, bytes: nat, dest: array<Byte>, off: nat)
    requires off + bytes <= dest.Length
    modifies dest
    ensures dest[off..off + bytes] == BigBytes(value, bytes)
    ensures forall k :: 0 <= k < dest.Length && !(off <= k < off + bytes) ==> dest[k] == old(dest[k])
  {
    var b: nat := value;
    var i: int := bytes - 1;
    while i >= 0
      invariant -1 <= i < bytes
      invariant b == ShiftR(value, bytes - 1 - i)
      invariant forall j :: off + i < j < off + bytes ==> dest[j] == ByteAt(value, off + bytes - 1 - j)
      invariant forall k :: 0 <= k < dest.Length && !(off + i < k < off + bytes) ==> dest[k] == old(dest[k])
    {
      dest[off + i] := b % 256;
      ShiftRStep(value, bytes - 1 - i);
      b := b / 256;
      i := i - 1;
    }
    forall k | 0 <= k < bytes
      ensures dest[off..off + bytes][k] == BigBytes(value, bytes)[k]
    {
      assert dest[off..off + bytes][k] == dest[off + k];
      BigBytesAt(value, bytes, k);
    }
  }

  /** Uint32: the four little-endian bytes of a uint32, from which it reads back unchanged. */
  method Uint32(value: U32) returns (result: seq<Byte>)
    ensures result == LittleBytes(value, 4)
    ensures FromLittle(result) == value
  {
    result := PackLittle(value, 4);
    assert Pow256(4) == 0x1_0000_0000;
  }

  /** Uint64: the eight little-endian bytes of a uint64, from which it reads back unchanged. */
  method Uint64(value: U64) returns (result: seq<Byte>)
    ensures |result| == 8
    ensures forall i :: 0 <= i < 8 ==> result[i] == ByteAt(value, i)
    ensures result == LittleBytes(value, 8)
    ensures FromLittle(result) == value
  {
    var b: nat := value;
    var buf := new Byte[8];
    var i := 0;
    while i < 8
      invariant 0 <= i <= 8
      invariant b == ShiftR(value, i)
      invariant forall k :: 0 <= k < i ==> buf[k] == ByteAt(value, k)
    {
      buf[i] := b % 256;
      ShiftRStep(value, i);
      b := b / 256;
      i := i + 1;
    }
    result := buf[..];
    forall k | 0 <= k < 8
      ensures result[k] == LittleBytes(value, 8)[k]
    {
      LittleBytesAt(value, 8, k);
    }
    LittleRoundTrip(value, 8);
    assert Pow256(8) == 0x1_0000_0000_0000_0000;
  }
}
