# cereal portable binary codec, modelled in Dafny

This project models the portable binary codec of the cereal serialization
library as its `portable_binary_archive` unit test uses it. It has three parts:

- **Byte reversal (`swap_bytes<N>`).** This reverses the `N = sizeof(T)` raw bytes of a scalar in place. It works through a `uint8_t*` view, so it is the same for integers and floats.
- **Plain binary output (`BinaryOutputArchive`).** Each value is appended to the stream as its bytes in the writer's native byte order. There are no tags and no padding.
- **Portable binary input (`PortableBinaryInputArchive`).** When opened, it consumes one flag byte, the `bool` "the writer was little-endian". From then on it reverses every value it reads, at that value's own width, exactly when the flag disagrees with the reader's own byte order.

The test swaps eleven values of the types `bool`, `uint8_t`, `int8_t`,
`uint16_t`, `int16_t`, `uint32_t`, `int32_t`, `uint64_t`, `int64_t`, `float` and
`double`. It writes them behind the negated flag through the plain output archive,
swaps them back, and reads them through the portable input archive. The values
read must equal the originals.

Modules, one per component:

- `Bytes` (bytes.dfy): `uint8`, `Reverse`, the in-place `SwapBytes`, and how a platform of either byte order stores a `w`-byte unsigned integer (`NativeBytes` and its inverse `NativeValue`).
- `Scalars` (scalars.dfy): the eleven kinds and their `sizeof`. A `Value` is a kind plus the unsigned bit pattern its storage holds. Signed integers are two's complement patterns, floats opaque IEEE-754 patterns. A `bool` holds whatever byte its storage holds: `BoolValue` stores 0 or 1, and any nonzero byte reads as `true`, so a `bool` read from a stream may hold any byte. The module also holds a value's memory image (`Image`, `FromImage`) and the value after `swapBytes` (`Swapped`).
- `BinaryOutput` (binary_output.dfy): the output archive as a class with a `seq<uint8>` stream field, and the bytes it produces for a sequence of values (`Serialize`).
- `PortableInput` (portable_input.dfy): the input archive as a class with a read cursor and a conversion flag fixed when it is opened. It also has the pure reference reader (`Load`, `LoadAll`, `Parse`) that the class is proved against, and the cross-platform round trip.
- `PortableBinaryTest` (portable_binary_test.dfy): the test case as a method over any sequence of values, with the lemmas that make it pass.

The platform's byte order (`is_little_endian()`) is a parameter `little` or
`nativeLittle`, where `true` means little-endian. The flag byte follows the code:
the writer stores the `bool` `is_little_endian()`, so 1 means little-endian.
The reader reads the flag as a C++ `bool`
(any nonzero byte is `true`) and converts when `is_little_endian()` differs from it.

## Model

| member | source | states |
|---|---|---|
| Bytes.Reverse | unittests/portable_binary_archive.cpp:44-48 | reversal keeps the block's width |
| Bytes.ReverseIndex | unittests/portable_binary_archive.cpp:44-48 | byte `k` of a reversed block is byte `N-1-k` of the original, for every width |
| Bytes.ReverseInvolution | unittests/portable_binary_archive.cpp:101-112 | reversing a block twice restores it, for every width and bit pattern |
| Bytes.ReverseShort | unittests/portable_binary_archive.cpp:70-72 | a block of at most one byte is its own reversal |
| Bytes.SwapBytes | unittests/portable_binary_archive.cpp:47 | `swap_bytes<N>` on an array: its contents afterwards are the reversal of its contents before |
| Bytes.LittleBytes | unittests/portable_binary_archive.cpp:58-65 | an integer's little-endian storage has exactly `w` bytes |
| Bytes.LittleValue | unittests/portable_binary_archive.cpp:58-65 | the integer read from `w` bytes is below `256^w` |
| Bytes.LittleValueOfBytes | unittests/portable_binary_archive.cpp:142-150 | reading back the little-endian bytes of any integer below `256^w` returns it |
| Bytes.LittleBytesOfValue | unittests/portable_binary_archive.cpp:142-150 | storing the integer read from any bytes returns those bytes |
| Bytes.NativeBytes | unittests/portable_binary_archive.cpp:82-99 | a value's native storage has exactly `w` bytes on either byte order |
| Bytes.NativeValue | unittests/portable_binary_archive.cpp:126-139 | the integer a platform reads from `w` bytes fits in `w` bytes |
| Bytes.NativeValueOfBytes | unittests/portable_binary_archive.cpp:142-150 | on either byte order, reading back stored bytes recovers the integer |
| Bytes.NativeBytesOfValue | unittests/portable_binary_archive.cpp:126-139 | on either byte order, storing what was read recovers the bytes |
| Bytes.ForeignOrderIsReversed | unittests/portable_binary_archive.cpp:69-86 | the other byte order stores every integer as the reversal of this order's block |
| Scalars.Width | unittests/portable_binary_archive.cpp:44-48 | `sizeof(T)` for each of the eleven types: every type takes between one and eight bytes |
| Scalars.KindsOf | unittests/portable_binary_archive.cpp:129-139 | the types of a sequence of values, position by position |
| Scalars.FootprintAppend | unittests/portable_binary_archive.cpp:88-98 | the bytes taken by two runs of values add up |
| Scalars.FootprintStep | unittests/portable_binary_archive.cpp:129-139 | one more value takes exactly its type's `sizeof` more bytes |
| Scalars.BoolValue | unittests/portable_binary_archive.cpp:57 | a `bool` is a one-byte value that reads back as the same truth value |
| Scalars.Half | unittests/portable_binary_archive.cpp:59-65 | a signed type's range is two halves of its pattern count |
| Scalars.SignedValue | unittests/portable_binary_archive.cpp:59-65 | a signed integer in range is stored as a pattern of its width, with the top half for negatives |
| Scalars.AsSigned | unittests/portable_binary_archive.cpp:142-150 | every two's complement pattern stands for a signed integer in the type's range |
| Scalars.SignedRoundTrip | unittests/portable_binary_archive.cpp:144-150 | a signed integer survives being held as its bit pattern |
| Scalars.PatternRoundTrip | unittests/portable_binary_archive.cpp:144-150 | a bit pattern survives being read as a signed integer, so sign bits are never lost |
| Scalars.Image | unittests/portable_binary_archive.cpp:44-48 | a value occupies exactly `sizeof(T)` bytes |
| Scalars.FromImage | unittests/portable_binary_archive.cpp:47 | reinterpreting `sizeof(T)` bytes as `T` gives a value of type `T` that fits in `sizeof(T)` bytes |
| Scalars.FromImageBytes | unittests/portable_binary_archive.cpp:47 | the storage of the reinterpreted value is exactly the bytes it was made from |
| Scalars.ImageRoundTrip | unittests/portable_binary_archive.cpp:47 | reinterpreting a value's own bytes gives the value back |
| Scalars.BoolImage | unittests/portable_binary_archive.cpp:86 | a `bool` is stored as the single byte 1 or 0 on either byte order |
| Scalars.Swapped | unittests/portable_binary_archive.cpp:44-48 | after `swapBytes` a variable keeps its type and its storage holds the reversal of its old bytes |
| Scalars.SwappedTwice | unittests/portable_binary_archive.cpp:101-112 | swapping twice restores every value of every type, including any float bit pattern |
| Scalars.SwappedSingleByte | unittests/portable_binary_archive.cpp:70-72 | swapping a `bool`, `uint8_t` or `int8_t` changes nothing |
| Scalars.SwappedIsForeign | unittests/portable_binary_archive.cpp:69-80 | a swapped value is stored as the original would be on the other byte order |
| Scalars.SwappedIgnoresKind | unittests/portable_binary_archive.cpp:47 | types of equal width holding one pattern (signed, unsigned, float) are swapped identically |
| BinaryOutput.Serialize | unittests/portable_binary_archive.cpp:88-98 | the bytes a run of `oar(...)` calls produces: each value's native image, in call order; what it promises is stated by `SerializeLength`, `SerializeAppend` and `SerializeAt` |
| BinaryOutput.SerializeLength | unittests/portable_binary_archive.cpp:88-98 | the output for a run of values is exactly the sum of their widths long: no tags, no padding |
| BinaryOutput.SerializeAppend | unittests/portable_binary_archive.cpp:88-98 | writing `a` then `b` appends `a`'s bytes and then `b`'s, in call order |
| BinaryOutput.SerializeAt | unittests/portable_binary_archive.cpp:88-98 | value `i` lies just after the bytes of the values written before it |
| BinaryOutput.BinaryOutputArchive.constructor | unittests/portable_binary_archive.cpp:82-84 | a new archive has written nothing |
| BinaryOutput.BinaryOutputArchive.Write | unittests/portable_binary_archive.cpp:86-98 | `oar(v)` appends `v`'s native bytes to what was written before, and nothing else |
| PortableInput.Flag | unittests/portable_binary_archive.cpp:85-86 | the flag byte is nonzero exactly for a little-endian writer |
| PortableInput.FlagIsStoredBool | unittests/portable_binary_archive.cpp:85-86 | the flag byte is exactly how a platform of either byte order stores the `bool` written by `oar(!is_little_endian())` |
| PortableInput.MustSwap | unittests/portable_binary_archive.cpp:126-128 | the reader converts exactly when the flag read as a `bool` differs from its own byte order |
| PortableInput.Load | unittests/portable_binary_archive.cpp:129-139 | a read succeeds exactly when `sizeof(T)` bytes remain and then returns a value of the requested type; a short read is a `StreamExhausted` failure, never a partial value |
| PortableInput.LoadBytes | unittests/portable_binary_archive.cpp:129-139 | the storage of a value read is exactly the stream's next `sizeof(T)` bytes, reversed when converting |
| PortableInput.LoadAll | unittests/portable_binary_archive.cpp:129-139 | a run of reads can only fail by running out of bytes |
| PortableInput.LoadAllSucceeds | unittests/portable_binary_archive.cpp:129-139 | successive reads succeed exactly when the stream holds all their bytes, and then return values of the requested types in order |
| PortableInput.LoadAllCons | unittests/portable_binary_archive.cpp:129-139 | a read that succeeds followed by reads that succeed is a run of reads returning the first value in front of the others |
| PortableInput.Parse | unittests/portable_binary_archive.cpp:126-139 | opening and reading fails on an empty stream with no flag; it succeeds exactly when the flag and every value's bytes are present |
| PortableInput.LoadWritten | unittests/portable_binary_archive.cpp:126-150 | a value written at some position on either byte order is read back exactly from there by a reader that converts when the orders differ |
| PortableInput.LoadAllWritten | unittests/portable_binary_archive.cpp:126-150 | a payload written at some position of a stream reads back from there as the same values, in order, with the same types |
| PortableInput.LoadAllWrittenStep | unittests/portable_binary_archive.cpp:126-150 | once the first written value's bytes are in place and the rest read back, the whole payload reads back |
| PortableInput.PortableRoundTrip | unittests/portable_binary_archive.cpp:126-150 | a stream that starts with the writer's own flag decodes to the written values on a reader of either byte order |
| PortableInput.SignedRoundTripAcrossPlatforms | unittests/portable_binary_archive.cpp:126-150 | a signed integer written on either byte order reads back on either byte order as the same signed integer: sign bits survive the swap |
| PortableInput.PortableBinaryInputArchive.constructor | unittests/portable_binary_archive.cpp:126-128 | opening consumes the flag byte before any value and fixes the conversion flag |
| PortableInput.PortableBinaryInputArchive.Open | unittests/portable_binary_archive.cpp:126-128 | opening fails exactly on an empty stream; otherwise the cursor is just after the flag |
| PortableInput.PortableBinaryInputArchive.Read | unittests/portable_binary_archive.cpp:129-139 | `iar(v)` returns what the reference read `Load` gives at the cursor, and advances the cursor by `sizeof(T)` |
| PortableBinaryTest.SwapValueBytes | unittests/portable_binary_archive.cpp:44-48 | the test's `swapBytes` leaves exactly the swapped value |
| PortableBinaryTest.SwapAll | unittests/portable_binary_archive.cpp:69-80 | the eleven `swapBytes` calls swap every value, each at its own width |
| PortableBinaryTest.SwappedAll | unittests/portable_binary_archive.cpp:69-80 | swapping keeps the number, order and types of the values |
| PortableBinaryTest.SwappedAllIndex | unittests/portable_binary_archive.cpp:69-80 | value `i` after the swap run is value `i` swapped |
| PortableBinaryTest.SwappedAllTwice | unittests/portable_binary_archive.cpp:101-112 | swapping back restores every original value |
| PortableBinaryTest.SerializeSwapped | unittests/portable_binary_archive.cpp:69-99 | writing swapped values natively gives the bytes a writer of the other order would write for the originals |
| PortableBinaryTest.ForgedFlagRoundTrip | unittests/portable_binary_archive.cpp:69-150 | pre-swapping and writing the negated flag forges a foreign stream that decodes to the original values |
| PortableBinaryTest.FlagAloneSwaps | unittests/portable_binary_archive.cpp:85-86 | negating the flag without pre-swapping makes the reader return every value swapped |
| PortableBinaryTest.SwapExample | unittests/portable_binary_archive.cpp:75 | little-endian `uint32_t` 0x01020304 is stored as 04 03 02 01, and its swap is 0x04030201 |
| PortableBinaryTest.TestPayloadSize | unittests/portable_binary_archive.cpp:88-98 | the eleven values take 1+1+1+2+2+4+4+8+8+4+8 = 43 bytes |
| PortableBinaryTest.TestStreamSize | unittests/portable_binary_archive.cpp:84-98 | the test's stream is the flag byte plus 43 payload bytes: 44 bytes |
| PortableBinaryTest.SerializeStep | unittests/portable_binary_archive.cpp:88-98 | each further write extends the output by exactly that value's bytes |
| PortableBinaryTest.WriteValues | unittests/portable_binary_archive.cpp:88-98 | the run of `oar(...)` calls appends the serialized values in call order |
| PortableBinaryTest.LoadAllStep | unittests/portable_binary_archive.cpp:129-139 | a successful read that moves the cursor past one value puts that value in front of those read after it, so the outcome of the whole run is unchanged |
| PortableBinaryTest.ReadValues | unittests/portable_binary_archive.cpp:129-139 | the run of `iar(...)` calls returns what the reference reader `LoadAll` gives from the cursor; afterwards the cursor has moved by the sum of the widths on success, and is at the end of the stream on failure |
| PortableBinaryTest.WriteForged | unittests/portable_binary_archive.cpp:82-99 | the test's output is the negated flag byte followed by the payload in the platform's own order |
| PortableBinaryTest.PortableBinaryArchive | unittests/portable_binary_archive.cpp:50-154 | one pass of the test: the stream is the negated flag and the swapped payload, `1 + sum of widths` bytes long, and the values read are the originals, bit for bit |

## Left out

- The `demangledName` test (lines 30-42) checks the compiler's type names and is not part of the codec.
- Random value generation and the 100-iteration loop (lines 52-67) are replaced by a method and lemmas over any sequence of values.
- `std::ostringstream`, `std::istringstream` and the Boost test macros: streams are `seq<uint8>`, and the checks are postconditions.
- The `is_little_endian()` probe depends on the platform and becomes a parameter.
- Float arithmetic and the `BOOST_CHECK_CLOSE` tolerance (lines 151-152): floats are opaque bit patterns, and the model proves bit-exact recovery, which is stronger.
- The implementation headers are not part of this model. `swap_bytes`, `BinaryOutputArchive` and `PortableBinaryInputArchive` are modelled from how the test uses them.
- The output stream never rejects bytes, so there is no write-failure path.
- Short reads: a read with fewer than `sizeof(T)` bytes left fails with `StreamExhausted`, and a stream with no flag byte cannot be opened (`MissingFlag`). The cursor after a failed read is put at the end of the stream. The test never exercises these paths, and the model claims nothing about the library's exact error behaviour there (exception type, message, stream state).
- A flag byte other than 0 or 1 is read as a C++ `bool` would be (nonzero means little-endian). Loading such a byte into a `bool` is not well defined in C++.
- The widths are those of the usual platforms: one byte for `bool`, and IEEE-754 single and double for `float` and `double`.
