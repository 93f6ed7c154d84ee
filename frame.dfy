/** The iproto frame codec of pack.go.

    A frame is a MessagePack uint 32 (marker 0xce and four big-endian bytes)
    holding the number of bytes that follow it, then a header map of two
    entries (fixmap marker 0x82): the command code under KeyCode and the
    request id, itself a uint 32, under KeySync. The body follows unchanged.
    The code is one byte (compact header, 14 bytes) when the packet's code is a
    Go `byte`, and a uint 32 (extended header, 18 bytes) when it is a `uint`,
    `int`, `uint32` or `int32`; any other dynamic type makes WriteTo panic.

    The values of KeyCode and KeySync are defined outside the core and are a
    parameter (`Keys`) here. */
module Frame {
  import opened Octets
  import Pack

  /** Go's `int` on a 64-bit platform, and `int32`. */
  type I64 = i: int | -0x8000_0000_0000_0000 <= i < 0x8000_0000_0000_0000
  type I32 = i: int | -0x8000_0000 <= i < 0x8000_0000

  /** The dynamic type and value in a packet's `code interface{}`. */
  datatype Code =
    | ByteCode(b: Byte)
    | UintCode(u: U64)
    | IntCode(i: I64)
    | Uint32Code(u32: U32)
    | Int32Code(i32: I32)
    | OtherCode  // any other dynamic type, nil included

  /** The codes that take the extended header. */
  predicate IsWide(code: Code)
  {
    code.UintCode? || code.IntCode? || code.Uint32Code? || code.Int32Code?
  }

  /** The integer a code holds. */
  function CodeValue(code: Code): (v: int)
    requires !code.OtherCode?
  {
    match code
    case ByteCode(b) => b
    case UintCode(u) => u
    case IntCode(i) => i
    case Uint32Code(u) => u
    case Int32Code(i) => i
  }

  /** Go's conversion `uint(i)` of a signed integer: its 64-bit two's complement. */
  function AsUint(i: I64): (u: U64)
    ensures u == i % 0x1_0000_0000_0000_0000
  {
    if i < 0 then i + 0x1_0000_0000_0000_0000 else i
  }

  /** The `int` whose 64-bit two's complement is u. */
  function AsInt(u: U64): (i: I64)
    ensures AsUint(i) == u
  {
    if u < 0x8000_0000_0000_0000 then u else u - 0x1_0000_0000_0000_0000
  }

  /** Go's `a | b` on two `int`s: the bitwise or of their two's complements. */
  function Or64(a: I64, b: I64): (r: I64)
    ensures AsUint(r) == ((AsUint(a) as bv64) | (AsUint(b) as bv64)) as int
  {
    AsInt(((AsUint(a) as bv64) | (AsUint(b) as bv64)) as int)
  }

  /** The `uint` WriteTo hands to packBigTo for a wide code. */
  function CodeWord(code: Code): (w: U64)
    requires IsWide(code)
    ensures w == CodeValue(code) % 0x1_0000_0000_0000_0000
  {
    match code
    case UintCode(u) => u
    case IntCode(i) => AsUint(i)
    case Uint32Code(u) => u
    case Int32Code(i) => AsUint(i)
  }

  /** The protocol's KeyCode and KeySync map keys. */
  datatype Keys = Keys(keyCode: Byte, keySync: Byte)

  /** MessagePack format markers: uint 32, and a fixmap of two entries. */
  const Uint32Marker: Byte := 0xce
  const FixMap2: Byte := 0x82

  // ---------------------------------------------------------------------
  // Wire layout

  /** The header bytes after the length field: the two-entry map of code and
      request id, or nothing for a code WriteTo cannot encode. */
  function HeaderTail(keys: Keys, code: Code, requestID: U32): (tail: Option<seq<Byte>>)
    ensures tail.None? <==> code.OtherCode?
    ensures tail.Some? ==> |tail.value| == (if code.ByteCode? then 9 else 13)
  {
    match code
    case OtherCode => None
    case ByteCode(b) =>
      Some([FixMap2, keys.keyCode, b, keys.keySync, Uint32Marker] + BigBytes(requestID, 4))
    case _ =>
      Some([FixMap2, keys.keyCode, Uint32Marker] + BigBytes(CodeWord(code), 4)
           + [keys.keySync, Uint32Marker] + BigBytes(requestID, 4))
  }

  /** The whole header: the length field counts the header tail and the body. */
  function Header(keys: Keys, code: Code, requestID: U32, bodyLen: nat): (h: Option<seq<Byte>>)
    ensures h.None? <==> code.OtherCode?
    ensures h.Some? ==>
      |h.value| == 5 + |HeaderTail(keys, code, requestID).value| && h.value[5..] == HeaderTail(keys, code, requestID).value
  {
    match HeaderTail(keys, code, requestID)
    case None => None
    case Some(tail) => Some([Uint32Marker] + BigBytes(|tail| + bodyLen, 4) + tail)
  }

  /** The bytes WriteTo emits for a packet when the writer accepts them all. */
  function FrameBytes(keys: Keys, code: Code, requestID: U32, body: seq<Byte>): (f: Option<seq<Byte>>)
    ensures f.None? <==> code.OtherCode?
    ensures f.Some? ==> |f.value| == 5 + |HeaderTail(keys, code, requestID).value| + |body|
  {
    match Header(keys, code, requestID, |body|)
    case None => None
    case Some(h) => Some(h + body)
  }

  /** WriteTo panics exactly for codes of an unsupported type, and the header
      is 14 bytes for a byte code and 18 otherwise. */
  lemma HeaderShape(keys: Keys, code: Code, requestID: U32, bodyLen: nat)
    ensures Header(keys, code, requestID, bodyLen).None? <==> code.OtherCode?
    ensures code.ByteCode? ==> |Header(keys, code, requestID, bodyLen).value| == 14
    ensures IsWide(code) ==> |Header(keys, code, requestID, bodyLen).value| == 18
  {
  }

  /** The compact header byte by byte:
      [0xce, L(4, big-endian), 0x82, KeyCode, code, KeySync, 0xce, id(4, big-endian)]
      with L = 9 + the body length (modulo 2^32). */
  lemma CompactHeaderFields(keys: Keys, b: Byte, requestID: U32, bodyLen: nat)
    ensures Header(keys, ByteCode(b), requestID, bodyLen).Some?
    ensures var h := Header(keys, ByteCode(b), requestID, bodyLen).value;
      && |h| == 14
      && h[0] == 0xce
      && FromBig(h[1..5]) == (9 + bodyLen) % 0x1_0000_0000
      && h[5] == 0x82 && h[6] == keys.keyCode && h[7] == b
      && h[8] == keys.keySync && h[9] == 0xce
      && FromBig(h[10..14]) == requestID
  {
    var h := Header(keys, ByteCode(b), requestID, bodyLen).value;
    assert h[1..5] == BigBytes(9 + bodyLen, 4);
    assert h[10..14] == BigBytes(requestID, 4);
    BigRoundTrip(9 + bodyLen, 4);
    BigRoundTrip(requestID, 4);
  }

  /** The extended header byte by byte:
      [0xce, L(4), 0x82, KeyCode, 0xce, code(4), KeySync, 0xce, id(4)], all
      big-endian, with the low 32 bits of the code's two's complement at
      offset 8 and L = 13 + the body length (modulo 2^32). */
  lemma ExtendedHeaderFields(keys: Keys, code: Code, requestID: U32, bodyLen: nat)
    requires IsWide(code)
    ensures Header(keys, code, requestID, bodyLen).Some?
    ensures var h := Header(keys, code, requestID, bodyLen).value;
      && |h| == 18
      && h[0] == 0xce
      && FromBig(h[1..5]) == (13 + bodyLen) % 0x1_0000_0000
      && h[5] == 0x82 && h[6] == keys.keyCode && h[7] == 0xce
      && FromBig(h[8..12]) == CodeValue(code) % 0x1_0000_0000
      && h[12] == keys.keySync && h[13] == 0xce
      && FromBig(h[14..18]) == requestID
  {
    var a, b, c := BigBytes(13 + bodyLen, 4), BigBytes(CodeWord(code), 4), BigBytes(requestID, 4);
    var h := Header(keys, code, requestID, bodyLen).value;
    assert h == [Uint32Marker] + a + [FixMap2, keys.keyCode, Uint32Marker] + b + [keys.keySync, Uint32Marker] + c;
    ExtendedSlices(keys, a, b, c);
    Big32RoundTrip(13 + bodyLen);
    Big32RoundTrip(CodeWord(code));
    CodeWordLow(code);
    assert FromBig(h[8..12]) == CodeValue(code) % 0x1_0000_0000;
    Big32RoundTrip(requestID);
    assert FromBig(h[14..18]) == requestID % 0x1_0000_0000 == requestID;
  }

  /** Where the fields of an extended header sit. */
  lemma ExtendedSlices(keys: Keys, a: seq<Byte>, b: seq<Byte>, c: seq<Byte>)
    requires |a| == 4 && |b| == 4 && |c| == 4
    ensures var h := [Uint32Marker] + a + [FixMap2, keys.keyCode, Uint32Marker] + b + [keys.keySync, Uint32Marker] + c;
      && |h| == 18 && h[0] == 0xce && h[1..5] == a
      && h[5] == 0x82 && h[6] == keys.keyCode && h[7] == 0xce && h[8..12] == b
      && h[12] == keys.keySync && h[13] == 0xce && h[14..18] == c
  {
  }

  /** The low 32 bits of the `uint` conversion of a code are those of its value. */
  lemma CodeWordLow(code: Code)
    requires IsWide(code)
    ensures CodeWord(code) % 0x1_0000_0000 == CodeValue(code) % 0x1_0000_0000
  {
    ModMod(CodeValue(code), 0x1_0000_0000, 0x1_0000_0000);
  }

  /** A frame is the marker, a length field counting the header tail and the
      body, the tail (9 bytes for a byte code, 13 otherwise), and the body. */
  lemma FrameLayout(keys: Keys, code: Code, requestID: U32, body: seq<Byte>)
    requires !code.OtherCode?
    ensures HeaderTail(keys, code, requestID).Some?
    ensures var tail := HeaderTail(keys, code, requestID).value;
      && |tail| == (if code.ByteCode? then 9 else 13)
      && FrameBytes(keys, code, requestID, body)
         == Some([Uint32Marker] + BigBytes(|tail| + |body|, 4) + tail + body)
  {
  }

  /** The length field of a frame counts exactly the bytes that follow it,
      as long as that number fits in 32 bits. */
  lemma LengthFieldCountsRest(keys: Keys, code: Code, requestID: U32, body: seq<Byte>)
    requires !code.OtherCode?
    requires |HeaderTail(keys, code, requestID).value| + |body| < 0x1_0000_0000
    ensures var f := FrameBytes(keys, code, requestID, body).value;
      |f| > 5 && FromBig(f[1..5]) == |f| - 5
  {
    FrameLayout(keys, code, requestID, body);
    var tail := HeaderTail(keys, code, requestID).value;
    var f := FrameBytes(keys, code, requestID, body).value;
    var len := |tail| + |body|;
    assert f == [Uint32Marker] + BigBytes(len, 4) + tail + body;
    assert f[1..5] == BigBytes(len, 4);
    Big32RoundTrip(len);
    assert len % 0x1_0000_0000 == len;
  }

  // ---------------------------------------------------------------------
  // Decoding

  /** The errors readPacked reports: io.EOF, io.ErrUnexpectedEOF, a header
      whose first byte is not 0xce, and a zero body length. */
  datatype ReadError = EndOfStream | UnexpectedEnd | WrongHeader(header: seq<Byte>) | ZeroLength

  /** What readPacked makes of a stream, and how many bytes of it it consumes. */
  datatype Decoded = Packet(body: seq<Byte>, consumed: nat) | Failure(error: ReadError, consumed: nat)

  /** The error of io.ReadAtLeast(r, buf, len(buf)) when the stream has
      `available` bytes left and the buffer holds `want`. */
  function ReadFullError(want: nat, available: nat): (e: Option<ReadError>)
  {
    if available >= want then None
    else if available == 0 then Some(EndOfStream)
    else Some(UnexpectedEnd)
  }

  /** readPacked on a stream s: a five-byte prefix, the 0xce marker, a nonzero
      big-endian length L, then exactly L body bytes. */
  function Decode(s: seq<Byte>): (d: Decoded)
    ensures d.consumed <= |s|
    ensures d.Packet? <==> (|s| >= 5 && s[0] == Uint32Marker && 0 < FromBig(s[1..5]) <= |s| - 5)
    ensures d.Packet? ==> |d.body| == FromBig(s[1..5])
    ensures d.Packet? ==>
      && 0 < |d.body| < 0x1_0000_0000 && d.consumed == 5 + |d.body| && d.body == s[5..d.consumed]
  {
    if |s| < 5 then Failure(ReadFullError(5, |s|).value, |s|)
    else if s[0] != Uint32Marker then Failure(WrongHeader(s[..5]), 5)
    else
      var len := FromBig(s[1..5]);
      FromBigBound(s[1..5]);
      assert Pow256(4) == 0x1_0000_0000;
      if len == 0 then Failure(ZeroLength, 5)
      else if |s| - 5 < len then Failure(ReadFullError(len, |s| - 5).value, |s|)
      else Packet(s[5..5 + len], 5 + len)
  }

  /** readPacked got a valid prefix and then ran out of stream inside the body:
      the case in which it has taken a buffer from the pool and releases it. */
  predicate ShortBody(s: seq<Byte>)
  {
    |s| >= 5 && s[0] == Uint32Marker && 0 < FromBig(s[1..5]) && |s| - 5 < FromBig(s[1..5])
  }

  /** binary.BigEndian.Uint32 */
  function BigEndianUint32(b: seq<Byte>): (v: U32)
    requires |b| >= 4
    ensures v == FromBig(b[..4])
  {
    var b0, b1, b2, b3 := b[0] as int, b[1] as int, b[2] as int, b[3] as int;
    assert FromBig(b[..4]) == 256 * FromBig(b[..3]) + b3 by {
      assert b[..4][..3] == b[..3];
    }
    assert FromBig(b[..3]) == 256 * FromBig(b[..2]) + b2 by {
      assert b[..3][..2] == b[..2];
    }
    assert FromBig(b[..2]) == 256 * FromBig(b[..1]) + b1 by {
      assert b[..2][..1] == b[..1];
    }
    assert FromBig(b[..1]) == b0 by {
      assert b[..1][..0] == [];
    }
    b0 * 0x100_0000 + b1 * 0x1_0000 + b2 * 0x100 + b3
  }

  /** Decoding a frame that WriteTo emits, whatever follows it in the stream,
      consumes exactly that frame and yields its header tail and its body. */
  lemma DecodeFrame(keys: Keys, code: Code, requestID: U32, body: seq<Byte>, more: seq<Byte>)
    requires !code.OtherCode?
    requires |HeaderTail(keys, code, requestID).value| + |body| < 0x1_0000_0000
    ensures var f := FrameBytes(keys, code, requestID, body).value;
      Decode(f + more) == Packet(HeaderTail(keys, code, requestID).value + body, |f|)
  {
    FrameLayout(keys, code, requestID, body);
    var tail := HeaderTail(keys, code, requestID).value;
    var f := FrameBytes(keys, code, requestID, body).value;
    var s := f + more;
    LengthFieldCountsRest(keys, code, requestID, body);
    assert s[1..5] == f[1..5];
    assert s[5..|f|] == tail + body;
  }

  /** Round trip: the packet readPacked returns for a WriteTo frame holds the
      code, the request id and the body that went in. */
  lemma FrameRoundTrip(keys: Keys, code: Code, requestID: U32, body: seq<Byte>, more: seq<Byte>)
    requires !code.OtherCode?
    requires |HeaderTail(keys, code, requestID).value| + |body| < 0x1_0000_0000
    ensures var f := FrameBytes(keys, code, requestID, body).value;
      var d := Decode(f + more);
      && d.Packet? && d.consumed == |f|
      && (code.ByteCode? ==>
            |d.body| == 9 + |body| && d.body[2] == code.b
            && FromBig(d.body[5..9]) == requestID && d.body[9..] == body)
      && (IsWide(code) ==>
            |d.body| == 13 + |body| && FromBig(d.body[3..7]) == CodeValue(code) % 0x1_0000_0000
            && FromBig(d.body[9..13]) == requestID && d.body[13..] == body)
  {
    DecodeFrame(keys, code, requestID, body, more);
    if code.ByteCode? {
      CompactTailFields(keys, code.b, requestID, body);
    } else {
      ExtendedTailFields(keys, code, requestID, body);
    }
  }

  /** Where the code, the id and the body sit after a compact header's length field. */
  lemma CompactTailFields(keys: Keys, b: Byte, requestID: U32, body: seq<Byte>)
    ensures var p := HeaderTail(keys, ByteCode(b), requestID).value + body;
      |p| == 9 + |body| && p[2] == b && FromBig(p[5..9]) == requestID && p[9..] == body
  {
    var p := HeaderTail(keys, ByteCode(b), requestID).value + body;
    var id := BigBytes(requestID, 4);
    assert p == [FixMap2, keys.keyCode, b, keys.keySync, Uint32Marker] + id + body;
    assert p[5..9] == id && p[9..] == body;
    Big32RoundTrip(requestID);
  }

  /** Where the code word, the id and the body sit after an extended header's length field. */
  lemma ExtendedTailFields(keys: Keys, code: Code, requestID: U32, body: seq<Byte>)
    requires IsWide(code)
    ensures var p := HeaderTail(keys, code, requestID).value + body;
      && |p| == 13 + |body| && FromBig(p[3..7]) == CodeValue(code) % 0x1_0000_0000
      && FromBig(p[9..13]) == requestID && p[13..] == body
  {
    var p := HeaderTail(keys, code, requestID).value + body;
    var word, id := BigBytes(CodeWord(code), 4), BigBytes(requestID, 4);
    assert p == [FixMap2, keys.keyCode, Uint32Marker] + word + [keys.keySync, Uint32Marker] + id + body;
    assert p[3..7] == word && p[9..13] == id && p[13..] == body;
    Big32RoundTrip(requestID);
    Big32RoundTrip(CodeWord(code));
    CodeWordLow(code);
  }

  /** A stream that stops anywhere inside a frame is a transport error (end of
      stream), never a malformed-frame error and never a packet. */
  lemma DecodeTruncatedFrame(keys: Keys, code: Code, requestID: U32, body: seq<Byte>, k: nat)
    requires !code.OtherCode?
    requires |HeaderTail(keys, code, requestID).value| + |body| < 0x1_0000_0000
    requires k < |FrameBytes(keys, code, requestID, body).value|
    ensures var d := Decode(FrameBytes(keys, code, requestID, body).value[..k]);
      d.Failure? && (d.error == EndOfStream || d.error == UnexpectedEnd) && d.consumed == k
  {
    var f := FrameBytes(keys, code, requestID, body).value;
    LengthFieldCountsRest(keys, code, requestID, body);
    if k >= 5 {
      assert f[..k][1..5] == f[1..5];
    }
  }

  // ---------------------------------------------------------------------
  // State: pool buffers, packets, and the two ends of the connection

  /** A buffer handed out by the packet pool (bufferPoolRecord). `contents` is
      what has been written into its bytes.Buffer; `storage` is its spare
      capacity, which readPacked reads a body into. `releases` counts the
      calls of its Release. */
  class PoolBuffer {
    var contents: seq<Byte>
    var storage: array<Byte>
    ghost var releases: nat

    /** packetPool.Get(size): a fresh, empty buffer with room for size bytes. */
    constructor (size: nat)
      ensures contents == [] && storage.Length == size && fresh(storage) && releases == 0
    {
      contents := [];
      storage := new Byte[size];
      releases := 0;
    }

    method Write(p: seq<Byte>)
      modifies this`contents
      ensures contents == old(contents) + p
    {
      contents := contents + p;
    }

    /** Hands the buffer back to the pool. */
    method Release()
      modifies this`releases
      ensures releases == old(releases) + 1
    {
      releases := releases + 1;
    }
  }

  /** How many of `want` bytes a writer that still accepts `limit` bytes
      (None: any number) takes. */
  function Accepted(limit: Option<nat>, want: nat): (n: nat)
    ensures n <= want
    ensures n == want <==> (limit.None? || want <= limit.value)
  {
    match limit
    case None => want
    case Some(k) => if want <= k then want else k
  }

  /** An io.Writer that accepts bytes until an injected limit, and fails from then on. */
  class Writer {
    var out: seq<Byte>
    var limit: Option<nat>

    constructor (limit: Option<nat>)
      ensures out == [] && this.limit == limit
    {
      out := [];
      this.limit := limit;
    }

    /** Writes what the limit allows; succeeds iff that is all of p. */
    method Write(p: seq<Byte>) returns (n: nat, ok: bool)
      modifies this
      ensures n == Accepted(old(limit), |p|) && ok == (n == |p|)
      ensures out == old(out) + p[..n]
      ensures limit == (if old(limit).None? then None else Some(old(limit).value - n))
    {
      n := Accepted(limit, |p|);
      ok := n == |p|;
      out := out + p[..n];
      if limit.Some? {
        limit := Some(limit.value - n);
      }
    }
  }

  /** An io.Reader over the bytes still to come on the stream. */
  class Reader {
    var rest: seq<Byte>

    constructor (input: seq<Byte>)
      ensures rest == input
    {
      rest := input;
    }

    /** io.ReadAtLeast(r, buf, len(buf)): fills buf from the front until it is
        full or the stream ends. */
    method ReadFull(buf: array<Byte>) returns (n: nat, err: Option<ReadError>)
      modifies this, buf
      ensures n == (if buf.Length <= |old(rest)| then buf.Length else |old(rest)|)
      ensures buf[..n] == old(rest)[..n] && buf[n..] == old(buf[n..])
      ensures rest == old(rest)[n..]
      ensures err == ReadFullError(buf.Length, |old(rest)|)
    {
      n := 0;
      while n < buf.Length && rest != []
        invariant n <= buf.Length && n <= |old(rest)|
        invariant rest == old(rest)[n..]
        invariant forall k :: 0 <= k < n ==> buf[k] == old(rest)[k]
        invariant forall k :: n <= k < buf.Length ==> buf[k] == old(buf[k])
      {
        buf[n] := rest[0];
        rest := rest[1..];
        n := n + 1;
      }
      assert buf[..n] == old(rest)[..n];
      assert buf[n..] == old(buf[n..]);
      err := ReadFullError(buf.Length, n);
    }
  }

  /** The header WriteTo writes: it takes the compact or the extended template,
      patches the code and the request id into it, and then the big-endian
      length `uint(len(h) - 5 + len(body))`. */
  method BuildHeader(keys: Keys, code: Code, requestID: U32, bodyLen: nat) returns (header: seq<Byte>)
    requires !code.OtherCode?
    ensures Header(keys, code, requestID, bodyLen) == Some(header)
  {
    var h8 := new Byte[14] [0xce, 0, 0, 0, 0, 0x82, keys.keyCode, 0, keys.keySync, 0xce, 0, 0, 0, 0];
    var h32 := new Byte[18] [0xce, 0, 0, 0, 0, 0x82, keys.keyCode, 0xce, 0, 0, 0, 0, keys.keySync, 0xce, 0, 0, 0, 0];
    var h: array<Byte>;
    if code.ByteCode? {
      h := h8;
      PatchCompact(h, keys, code.b, requestID);
    } else {
      // uint(code.(T)) for each of the four wide types T
      h := h32;
      PatchExtended(h, keys, CodeWord(code), requestID);
    }
    assert h[5..] == HeaderTail(keys, code, requestID).value;
    PatchLength(h, bodyLen);
    header := h[..];
  }

  /** The length field of WriteTo: `uint(len(h) - 5 + len(body))` big-endian
      at offset 1, which keeps its low four bytes. */
  method PatchLength(h: array<Byte>, bodyLen: nat)
    requires h.Length >= 5 && h[0] == Uint32Marker
    modifies h
    ensures h[..] == [Uint32Marker] + BigBytes(h.Length - 5 + bodyLen, 4) + old(h[5..])
  {
    ghost var tail := h[5..];
    var l := (h.Length - 5 + bodyLen) % 0x1_0000_0000_0000_0000;
    Pack.PackBigTo(l, 4, h, 1);
    assert h[5..] == tail;
    BigBytesMod(h.Length - 5 + bodyLen, 8, 4);
    assert Pow256(8) == 0x1_0000_0000_0000_0000;
    assert h[..] == [h[0]] + h[1..5] + h[5..];
  }

  /** The byte-code case of WriteTo: `h[7] = code` and the request id at offset 10. */
  method PatchCompact(h: array<Byte>, keys: Keys, b: Byte, requestID: U32)
    requires h.Length == 14 && h[0] == 0xce
    requires h[5] == 0x82 && h[6] == keys.keyCode && h[8] == keys.keySync && h[9] == 0xce
    modifies h
    ensures h[0] == 0xce && h[1..5] == old(h[1..5])
    ensures h[5..] == HeaderTail(keys, ByteCode(b), requestID).value
  {
    h[7] := b;
    Pack.PackBigTo(requestID, 4, h, 10);
    assert h[5..] == [h[5], h[6], h[7], h[8], h[9]] + h[10..14];
  }

  /** The wide-code cases of WriteTo: the code's low four bytes at offset 8 and
      the request id at offset 14. */
  method PatchExtended(h: array<Byte>, keys: Keys, word: U64, requestID: U32)
    requires h.Length == 18 && h[0] == 0xce
    requires h[5] == 0x82 && h[6] == keys.keyCode && h[7] == 0xce
    requires h[12] == keys.keySync && h[13] == 0xce
    modifies h
    ensures h[0] == 0xce && h[1..5] == old(h[1..5])
    ensures h[5..] == [FixMap2, keys.keyCode, Uint32Marker] + BigBytes(word, 4)
                      + [keys.keySync, Uint32Marker] + BigBytes(requestID, 4)
  {
    Pack.PackBigTo(word, 4, h, 8);
    ghost var codeField := h[8..12];
    Pack.PackBigTo(requestID, 4, h, 14);
    assert h[8..12] == codeField;
    assert h[5..] == [h[5], h[6], h[7]] + h[8..12] + [h[12], h[13]] + h[14..18];
  }

  datatype WriteStatus = Written | WriteFailed | Panicked

  /** packedPacket: an outgoing packet (code, request id and a pool buffer
      holding the body) or an incoming one (its body). A released packet has
      no pool buffer. */
  class PackedPacket {
    var code: Code
    var requestID: U32
    var body: seq<Byte>
    var poolBuffer: PoolBuffer?

    constructor (code: Code, requestID: U32, body: seq<Byte>, poolBuffer: PoolBuffer?)
      ensures this.code == code && this.requestID == requestID
      ensures this.body == body && this.poolBuffer == poolBuffer
    {
      this.code := code;
      this.requestID := requestID;
      this.body := body;
      this.poolBuffer := poolBuffer;
    }

    /** Writes the header and then the pool buffer's bytes to w. A released
        packet writes nothing and reports success; an unsupported code panics
        before anything is written; otherwise the writer receives as much of
        FrameBytes as it accepts and n counts those bytes. */
    method WriteTo(w: Writer, keys: Keys) returns (n: nat, status: WriteStatus)
      modifies w
      ensures poolBuffer == null ==>
        n == 0 && status == Written && w.out == old(w.out) && w.limit == old(w.limit)
      ensures poolBuffer != null && code.OtherCode? ==>
        n == 0 && status == Panicked && w.out == old(w.out) && w.limit == old(w.limit)
      ensures poolBuffer != null && !code.OtherCode? ==>
        var f := FrameBytes(keys, code, requestID, poolBuffer.contents).value;
        && n == Accepted(old(w.limit), |f|)
        && w.out == old(w.out) + f[..n]
        && status == (if n == |f| then Written else WriteFailed)
        && w.limit == (if old(w.limit).None? then None else Some(old(w.limit).value - n))
    {
      if poolBuffer == null {
        // a released packet writes nothing
        return 0, Written;
      }

      var body := poolBuffer.contents;
      if code.OtherCode? {
        // an unknown code type panics before anything is written
        return 0, Panicked;
      }
      var h := BuildHeader(keys, code, requestID, |body|);

      var ok: bool;
      n, ok := w.Write(h);
      if !ok {
        return n, WriteFailed;
      }
      var nn, ok2 := w.Write(body);
      assert h + body[..nn] == (h + body)[..n + nn];
      if !ok2 {
        return n + nn, WriteFailed;
      }
      return n + nn, Written;
    }

    /** Hands the pool buffer back, once: a released packet stays released. */
    method Release()
      modifies this`poolBuffer, poolBuffer
      ensures poolBuffer == null
      ensures old(poolBuffer) != null ==> old(poolBuffer).releases == old(poolBuffer.releases) + 1
    {
      if poolBuffer != null {
        poolBuffer.Release();
      }
      poolBuffer := null;
    }
  }

  // ---------------------------------------------------------------------
  // Building and reading packets

  /** packIproto: a packet with a fresh, empty 256-byte pool buffer for its body. */
  method PackIproto(code: Code, requestID: U32) returns (pp: PackedPacket)
    ensures fresh(pp) && pp.code == code && pp.requestID == requestID && pp.body == []
    ensures pp.poolBuffer != null && fresh(pp.poolBuffer)
    ensures pp.poolBuffer.contents == [] && pp.poolBuffer.storage.Length == 256
    ensures pp.poolBuffer.releases == 0
  {
    var buffer := new PoolBuffer(256);
    pp := new PackedPacket(code, requestID, [], buffer);
  }

  /** packIprotoError: an error reply, its code the Go `int` ErrorFlag | code. */
  method PackIprotoError(code: I64, requestID: U32, errorFlag: I64) returns (pp: PackedPacket)
    ensures fresh(pp) && pp.code == IntCode(Or64(errorFlag, code)) && pp.requestID == requestID
    ensures pp.poolBuffer != null && fresh(pp.poolBuffer) && pp.poolBuffer.contents == []
    ensures pp.poolBuffer.storage.Length == 256 && pp.poolBuffer.releases == 0
  {
    pp := PackIproto(IntCode(Or64(errorFlag, code)), requestID);
  }

  /** packIprotoOk: a success reply whose body is the empty MessagePack map 0x80. */
  method PackIprotoOk(requestID: U32, okCode: Code) returns (pp: PackedPacket)
    ensures fresh(pp) && pp.code == okCode && pp.requestID == requestID
    ensures pp.poolBuffer != null && fresh(pp.poolBuffer) && pp.poolBuffer.contents == [0x80]
    ensures pp.poolBuffer.storage.Length == 256 && pp.poolBuffer.releases == 0
  {
    pp := PackIproto(okCode, requestID);
    pp.poolBuffer.Write([0x80]);
  }

  /** readPacked: reads one frame from r. On success the packet's body is the
      L bytes after the five-byte prefix; on a short body the pool buffer it
      took (`rec`) has been released. */
  method ReadPacked(r: Reader) returns (pp: PackedPacket?, err: Option<ReadError>, ghost rec: PoolBuffer?)
    modifies r
    ensures var d := Decode(old(r.rest)); r.rest == old(r.rest)[d.consumed..]
    ensures var d := Decode(old(r.rest));
      d.Packet? ==>
        && err.None? && pp != null && fresh(pp)
        && pp.body == d.body && pp.code == OtherCode && pp.requestID == 0
        && pp.poolBuffer == rec && rec != null && fresh(rec) && rec.releases == 0
    ensures var d := Decode(old(r.rest));
      d.Failure? ==> pp == null && err == Some(d.error)
    ensures ShortBody(old(r.rest)) ==> rec != null && fresh(rec) && rec.releases == 1
    ensures Decode(old(r.rest)).Failure? && !ShortBody(old(r.rest)) ==> rec == null
  {
    ghost var s := r.rest;
    var h := new Byte[5];
    var got, e := r.ReadFull(h);
    if e.Some? {
      return null, e, null;
    }
    assert h[..] == s[..5];

    if h[0] != 0xce {
      return null, Some(WrongHeader(h[..])), null;
    }

    var bodyLength := BigEndianUint32(h[1..5]);
    assert h[1..5][..4] == s[1..5];
    if bodyLength == 0 {
      return null, Some(ZeroLength), null;
    }

    var buffer := new PoolBuffer(bodyLength);
    pp := new PackedPacket(OtherCode, 0, [], buffer);
    rec := buffer;

    var n;
    n, e := r.ReadFull(buffer.storage);
    if e.Some? {
      pp.Release();
      return null, e, rec;
    }
    assert buffer.storage[..] == buffer.storage[..n];
    assert s[5..][..bodyLength] == s[5..5 + bodyLength];
    assert s[5..][n..] == s[5 + bodyLength..];
    pp.body := buffer.storage[..];
    err := None;
  }

  // ---------------------------------------------------------------------
  // Release is idempotent

  /** A second Release hands nothing back: the buffer is released exactly once. */
  method ReleaseTwice(pp: PackedPacket)
    modifies pp, pp.poolBuffer
    ensures pp.poolBuffer == null
    ensures old(pp.poolBuffer) != null ==> old(pp.poolBuffer).releases == old(pp.poolBuffer.releases) + 1
  {
    pp.Release();
    pp.Release();
  }

  /** A released packet writes nothing and reports (0, nil). */
  method WriteAfterRelease(pp: PackedPacket, w: Writer, keys: Keys) returns (n: nat, status: WriteStatus)
    modifies pp, pp.poolBuffer, w
    ensures n == 0 && status == Written
    ensures w.out == old(w.out) && w.limit == old(w.limit)
  {
    pp.Release();
    n, status := pp.WriteTo(w, keys);
  }
}
