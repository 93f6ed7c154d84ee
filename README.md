# go-tarantool iproto codec and update query, in Dafny

This project models the part of the go-tarantool connector that turns requests
into bytes and bytes back into responses, and proves properties of that model.

- **Integer packers** (`pack.go`). `packLittle` and `packBig` return the low
  `n` bytes of a `uint` in little- or big-endian order. `packLittleTo` and
  `packBigTo` write those bytes into a slice the caller owns. `Uint32` and
  `Uint64` are little-endian helpers. Module `Pack` (pack.dfy) has them as
  methods that loop over an array, shifting a local `b` one byte at a time.
  Their specifications are the byte-order functions and lemmas of module
  `Octets` (octets.dfy).
- **iproto frames** (`pack.go`). Module `Frame` (frame.dfy) holds:
  - the packet as a class `PackedPacket`, whose code is a Go `interface{}` modelled as the datatype `Code`;
  - `WriteTo`, which patches one of the two header templates and makes two writes;
  - `Release`;
  - `packIproto`, `packIprotoError` and `packIprotoOk`;
  - `readPacked`.

  The wire layout is stated as functions (`HeaderTail`, `Header`, `FrameBytes`). What
  `readPacked` makes of a stream is the function `Decode`. The two are tied by
  round-trip lemmas.
- **Update query body** (`update.go`). Module `UpdateQuery` (update.dfy) has
  `Update.Pack` as a method that appends tokens to a body buffer. The tokens
  are the MessagePack encoder's calls. `PackBody` is the token stream it
  must produce, and lemmas state its shape, its error cases and its key
  precedence.

The protocol constants are defined outside these files, so they are
parameters: `Keys` for KeyCode and KeySync, `Constants` for UpdateRequest,
BadRequest, KeyKey and KeyTuple, and the `errorFlag` and `okCode`
arguments.

Go's `uint` and `int` are taken as 64 bits wide. A slice `dest[off:]` passed
to `packBigTo` is modelled as the array and the offset. `WriteTo`'s panic on
an unknown code type is the status `Panicked`.

## Model

| member | source | states |
|---|---|---|
| Octets.LittleBytesAt | pack.go:22-25 | byte k of the little-endian encoding is `(v >> 8k) & 0xFF` |
| Octets.BigBytesAt | pack.go:32-35 | byte j of the n-byte big-endian encoding is `(v >> 8(n-1-j)) & 0xFF` |
| Octets.ShiftRIsDiv | pack.go:24 | k byte shifts `b >>= 8` divide by 256^k |
| Octets.LittleRoundTrip | pack.go:19-27 | reading n little-endian bytes back gives v mod 256^n |
| Octets.BigRoundTrip | pack.go:29-37 | reading n big-endian bytes back gives v mod 256^n |
| Octets.BigIsReversedLittle | pack.go:19-37 | byte j of the n-byte big-endian encoding is byte n-1-j of the little-endian one |
| Octets.BigBytesMod | pack.go:140-141 | reducing v modulo 256^m (m >= n) first does not change its n-byte encoding, so the `uint` wrap of the length cannot reach the four bytes packed |
| Octets.Big32RoundTrip | pack.go:119-141 | a four-byte big-endian field reads back as v mod 2^32 |
| Octets.FromBigBound | pack.go:174 | a big-endian number of k bytes is below 256^k, which bounds the body length readPacked reads |
| Pack.PackLittle | pack.go:19-27 | exactly `bytes` bytes, byte i is `(v >> 8i) & 0xFF`, equal to `LittleBytes`, reading back to v mod 256^bytes, and every byte past the eighth is 0 |
| Pack.PackBig | pack.go:29-37 | exactly `bytes` bytes, most significant first, byte i equal to byte bytes-1-i of the little-endian encoding, reading back to v mod 256^bytes, and every byte before the last eight is 0 |
| Pack.PackLittleTo | pack.go:39-45 | `dest[off..off+bytes]` becomes the little-endian encoding and every other element of `dest` is unchanged |
| Pack.PackBigTo | pack.go:47-53 | `dest[off..off+bytes]` becomes the big-endian encoding and every other element of `dest` is unchanged |
| Pack.Uint32 | pack.go:56-58 | equals the 4-byte little-endian encoding and reads back to the value |
| Pack.Uint64 | pack.go:61-69 | the 8 little-endian bytes of the value, reading back to the value |
| Frame.AsUint | pack.go:126 | `uint(i)` of an `int` is i modulo 2^64 |
| Frame.AsInt | pack.go:80 | the `int` whose two's complement is a given `uint`: `AsUint` takes it back to that `uint` |
| Frame.Or64 | pack.go:80 | the two's complement of `ErrorFlag \| code` is the bitwise or of the operands' two's complements |
| Frame.HeaderTail | pack.go:95-138 | no header exactly for an unsupported code type; the tail is 9 bytes for a byte code and 13 otherwise |
| Frame.Header | pack.go:95-141 | absent exactly for an unsupported code; otherwise five bytes of marker and length, then the header tail |
| Frame.FrameBytes | pack.go:140-152 | absent exactly for an unsupported code; otherwise the five-byte prefix, the tail and the body add up to its length |
| Frame.HeaderShape | pack.go:95-138 | the header is absent exactly for an unsupported code, 14 bytes for a `byte` code and 18 for a wide one |
| Frame.CompactHeaderFields | pack.go:95-119 | the 14-byte header is `[0xce, L, 0x82, KeyCode, code, KeySync, 0xce, id]` with L = 9 + body length mod 2^32 and id big-endian |
| Frame.ExtendedHeaderFields | pack.go:103-135 | the 18-byte header has L = 13 + body length mod 2^32, the code's low 32 bits big-endian at offset 8 and the id at offset 14 |
| Frame.CodeWord | pack.go:120-135 | the `uint` WriteTo packs for each wide code type is the code's value modulo 2^64: the value itself for `uint` and `uint32`, its 64-bit two's complement for `int` and `int32` |
| Frame.CodeWordLow | pack.go:120-135 | the `uint` conversion of each wide code keeps the low 32 bits of its value |
| Frame.FrameLayout | pack.go:140-152 | a frame is the marker, the length field counting tail and body, the tail, then the body unchanged |
| Frame.LengthFieldCountsRest | pack.go:140-141 | the length field equals the number of bytes after the five-byte prefix |
| Frame.BigEndianUint32 | pack.go:174 | `binary.BigEndian.Uint32` is the big-endian value of the first four bytes |
| Frame.Accepted | pack.go:143-152 | a writer takes at most what it is given, and all of it exactly when its limit allows |
| Frame.Reader.ReadFull | pack.go:166-167 | `io.ReadAtLeast` fills the buffer from the stream, consumes what it copied, and reports end of stream or unexpected end when it ran short |
| Frame.PatchCompact | pack.go:116-119 | patching the compact template gives the compact header tail and leaves the marker and the length field as they were |
| Frame.PatchExtended | pack.go:120-135 | patching the extended template puts the code word at offset 8 and the id at offset 14, and leaves the marker and the length field as they were |
| Frame.PatchLength | pack.go:140-141 | the length `uint(len(h) - 5 + len(body))` lands big-endian at offset 1, rest of h unchanged |
| Frame.BuildHeader | pack.go:95-141 | the patched template equals `Header` for the packet's code, id and body length |
| Frame.PackedPacket.WriteTo | pack.go:89-153 | released: writes nothing and succeeds; unsupported code: panics before writing; otherwise the writer receives as many bytes of the frame as it accepts, n counts them (n + nn across the two writes), the writer's remaining limit drops by n, and the call fails exactly when the frame was cut short |
| Frame.PackedPacket.Release | pack.go:155-160 | the pool buffer, if any, is released once and the packet has none afterwards |
| Frame.ReleaseTwice | pack.go:155-160 | a second Release releases nothing more |
| Frame.WriteAfterRelease | pack.go:89-93 | WriteTo after Release writes nothing and returns (0, nil) |
| Frame.PackIproto | pack.go:71-77 | a fresh packet with the code and id and a fresh, empty 256-byte pool buffer |
| Frame.PackIprotoError | pack.go:79-81 | the code is the `int` ErrorFlag \| code, on two's complements, with a fresh, empty, unreleased 256-byte pool buffer |
| Frame.PackIprotoOk | pack.go:83-87 | the OkCode packet whose fresh, unreleased 256-byte pool buffer holds the empty MessagePack map `0x80` |
| Frame.ReadPacked | pack.go:162-190 | the result is `Decode` of the stream: short prefix gives EOF or unexpected EOF, a wrong marker gives the header error, length 0 gives an error, a short body gives EOF or unexpected EOF and releases the buffer, and success gives exactly the next L bytes, consuming only them |
| Frame.Decode | pack.go:162-190 | readPacked consumes at most the stream; it yields a packet exactly when the stream has five bytes, the 0xce marker, a nonzero length L and at least L further bytes; the packet's body is then the next L bytes, below 2^32 of them, and 5 + L bytes are consumed |
| Frame.DecodeFrame | pack.go:162-190 | readPacked of a WriteTo frame, whatever follows it, consumes exactly the frame and yields the header bytes after index 5 followed by the body |
| Frame.FrameRoundTrip | pack.go:89-190 | the code (its low 32 bits for wide codes), the request id and the body read back from a written frame are those that went in |
| Frame.CompactTailFields | pack.go:116-119 | after a compact header's length field come the code at offset 2, the id at 5-9 and the body from 9 |
| Frame.ExtendedTailFields | pack.go:120-135 | after an extended header's length field come the code's low 32 bits at 3-7, the id at 9-13 and the body from 13 |
| Frame.DecodeTruncatedFrame | pack.go:166-187 | a stream cut anywhere inside a frame fails with EOF or unexpected EOF, never with a malformed-frame error or a packet |
| UpdateQuery.Encode | update.go:39 | `encoder.Encode` appends the value exactly when it can encode it |
| UpdateQuery.EncodeValues | update.go:45-49 | the loop over values appends what `EncodeAll` says and fails exactly when it does |
| UpdateQuery.PackNames | update.go:26-34 | the space entry, then the index entry only if the space resolved |
| UpdateQuery.PackKey | update.go:36-50 | appends the key entry as `KeyEntry` states it |
| UpdateQuery.PackOperations | update.go:52-63 | appends `Uint(KeyTuple)`, `ArrayLen(len(Set))` and the operators as `Operations` states them |
| UpdateQuery.PackEntries | update.go:36-63 | appends the key entry and, only when it encoded, the operators entry |
| UpdateQuery.Pack | update.go:19-66 | appends exactly `PackBody`, and returns BadRequest when it failed and UpdateRequest otherwise |
| UpdateQuery.EncodeAllSucceeds | update.go:45-49 | encoding succeeds if and only if every value encodes, and then emits one token per value, in order |
| UpdateQuery.EncodeAllStops | update.go:45-49 | encoding stops at the first refused value, having emitted the values before it |
| UpdateQuery.EncodeAllAppend | update.go:45-49 | encoding a + b is encoding a and then b |
| UpdateQuery.OperationsSucceed | update.go:55-63 | the operators section succeeds if and only if all their values encode, and then is each operator's array header followed by its values |
| UpdateQuery.OperationsStop | update.go:55-63 | the section stops inside the first operator whose tuple does not encode, with every earlier operator emitted whole |
| UpdateQuery.OperationsAppend | update.go:55-63 | packing operators a + b is packing a and then b |
| UpdateQuery.PackStartsWithMapHeader | update.go:24 | the first token is `MapLen(4)` whatever the fields hold |
| UpdateQuery.SpaceFailureStops | update.go:27-29 | a failed space resolution fails Pack with no index, key or operator tokens |
| UpdateQuery.IndexFailureStops | update.go:32-34 | a failed index resolution fails Pack with no key or operator tokens |
| UpdateQuery.SingleKeyWins | update.go:37-41 | a non-nil Key gives the single-key prefix and the key, and KeyTuple has no effect on the body |
| UpdateQuery.KeyTupleEntry | update.go:42-50 | with a nil Key, a KeyTuple gives `Uint(KeyKey)`, its length and its elements in order; a refused element ends the entry after the elements before it, and fails it; with neither, no key entry |
| UpdateQuery.PackBodyStages | update.go:19-66 | the body is the map header and the names, then the last two entries only when both names resolved |
| UpdateQuery.PackAfterIndex | update.go:36-63 | after the names, the key entry and then, unless the key failed, the operators entry |
| UpdateQuery.PackSucceeds | update.go:19-66 | Pack succeeds if and only if both names resolve, a non-nil Key encodes, with a nil Key every KeyTuple element encodes, and every operator value encodes; and the body is then the four entries in order |

## Left out

- `execute.go` is not part of this model. It races channel operations against context cancellation, which is concurrency.
- The packet pool is not modelled. `packetPool.Get(n)` is a fresh `PoolBuffer` with `n` bytes of storage. `bufferPoolRecord.Release` only counts its calls, in a ghost counter.
- The MessagePack library is not modelled. The encoder is a log of tokens, and `Encode` fails only on a value of a type it cannot encode (`Unsupported`). `Update.Unpack` and the decoder are not modelled.
- `packData.writeSpace` and `writeIndex` are not modelled. They are function fields of `PackData` that return the tokens they write and whether they succeeded. `packedSingleKey` is an uninterpreted byte string, written as one `Raw` token that cannot fail.
- The concrete values of KeyCode, KeySync, OkCode, ErrorFlag, UpdateRequest, BadRequest, KeyKey and KeyTuple are parameters.
- io.Writer: it takes bytes up to an optional limit and fails from then on; socket behaviour is I/O.
- io.Reader: the stream is a sequence of bytes, and running out is its only error. Other read errors are not modelled.
- Frame.ReadPacked: returns the `Decode` result, not the text of the two `fmt`/`errors` messages. A wrong marker is `WrongHeader` of the five bytes and a zero length is `ZeroLength`.
- Pack.PackLittleTo: an index out of range in Go panics after writing a prefix of `dest`. The model requires `off + bytes <= dest.Length` instead. The same holds for Pack.PackBigTo.
- Pack.PackLittle: a negative `bytes` (an `int`) makes Go's `make` panic. The model's width is a `nat`, and the same holds for Pack.PackBig.
- Frame.FrameRoundTrip: requires the header tail and the body to total less than 2^32 bytes (a body under 2^32 - 9 bytes for a byte code, under 2^32 - 13 otherwise). A longer one wraps the 32-bit length field. Frame.LengthFieldCountsRest, Frame.DecodeFrame and Frame.DecodeTruncatedFrame carry the same requirement. Frame.CompactHeaderFields and Frame.ExtendedHeaderFields state the wrap itself.
- Frame.Or64: the model states the result as the bitwise or of the two's complements. It does not prove that every bit of ErrorFlag and of the code is set in the result, because the solver cannot settle the 64-bit bit-vector to integer conversions that needs.
- Frame.ReadPacked: the packet's body is copied out of the pool buffer's storage, not aliased to it. The aliasing is not modelled.
- Frame.PackedPacket.WriteTo: the four wide cases share one path, since each is `packBigTo` of the `uint` word (`CodeWord`). BuildHeader, PatchCompact, PatchExtended and PatchLength are that inline code split into methods.
- UpdateQuery.Pack: the source's early returns are a single exit here, the later stages being skipped. The key section, the operator section and the per-tuple loop are methods of their own (PackEntries, PackKey, PackOperations, EncodeValues).
