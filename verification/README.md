# LPF2 device-side message builders in Dafny

This project models the device side of the LPF2 UART sensor protocol, as
implemented by the `LPF2` class of a MicroPython emulator. Every message the
class sends is a short byte string:

- the handshake messages: sensor type, proposed baud rate, hardware and
  software versions, and the mode and view counts;
- the seven descriptor messages per mode: name, raw, percent and SI
  ranges, unit symbol, function map and format;
- the data telegram carrying a live reading.

Each builder is modelled as a pure Dafny function over octets (`bv8`). The
checksum (complemented running XOR) is modelled as `Checksum.AddChecksum`.

To state what the builders promise, the model also defines a receiver's view
of a header byte in module `Frames`:

- bits 6-7 are the message kind;
- bits 3-5 are the length class (the payload holds 2^class bytes);
- bits 0-2 are the mode index;
- info messages carry one sub-id byte before the payload;
- every non-system message ends with a check byte.

`Frames.Split` cuts a byte stream into messages by their headers. The lemmas
then prove the following about the builders:

- which messages a receiver frames correctly;
- which it does not (the format message, long texts, and the data telegram,
  which has no check byte);
- that every payload decodes back to the values it was built from:
  little-endian and big-endian integers, two's-complement samples, float bit
  patterns, and zero-padded text.

Modules, one per file:

- `bytes.dfy`: `Results` (Option and Result) and `Bytes`, which holds powers
  of two, integer logarithms, XOR and fixed-width codecs.
- `checksum.dfy`: `Checksum`.
- `frames.dfy`: `Frames`, which holds the wire constants, the header, and the
  receiver's framing rules.
- `numeric.dfy`: `Numeric`, which holds the seven sample types, their widths,
  MicroPython's `ustruct.pack` (which writes an integer's low bytes) and its
  inverse.
- `handshake.dfy`: `Handshake`.
- `mode_info.dfy`: `ModeInfo`, which holds the descriptors and setupMode.
- `data.dfy`: `Data`, which holds sendData.

Where the protocol description and the code differ, the model follows the
code:

- The data telegram carries no check byte.
- The length class counts the payload only, not the header.
- The mode-count message wraps with `& 0xFF` instead of rejecting more than
  eight modes. There is no too-many-modes error.
- The format message's header is `0x51 | num`, a command-kind header, not an
  info header.
- A sample outside its type's range is not rejected: `ustruct` sends its low
  bytes, so it reads back as a different value.

## Model

| member | source | states |
|---|---|---|
| Bytes.FloorLog2 | uart/rp2/LPF2.py:44 | the result k is the unique exponent with 2^k <= n < 2^(k+1) (math.floor(math.log2(n))) |
| Bytes.FloorLog2Unique | uart/rp2/LPF2.py:44 | any k bracketing n between 2^k and 2^(k+1) equals FloorLog2(n), so the bracket characterises the floor logarithm |
| Bytes.CeilLog2 | uart/rp2/LPF2.py:82 | n <= 2^k, and 2^(k-1) < n unless k = 0 (math.ceil(math.log2(n))) |
| Bytes.CeilLog2Least | uart/rp2/LPF2.py:82 | CeilLog2(n) is the least exponent whose power of two reaches n |
| Bytes.Pow2Table | uart/rp2/LPF2.py:82-84 | proof helper: the powers 2^1..2^4, 2^7, 2^8 and 2^31 used by the exponent and header proofs |
| Bytes.XorAllConcat | uart/rp2/LPF2.py:60-63 | the running XOR of a concatenation is the XOR of the parts' running XORs |
| Bytes.FromLEToLE | uart/rp2/LPF2.py:71 | decoding the n little-endian octets of x (x < 256^n) gives x back |
| Bytes.ToLEFromLE | uart/rp2/LPF2.py:71 | re-encoding the value of any octet string little-endian reproduces the string |
| Bytes.FromBEToBE | uart/rp2/LPF2.py:75-76 | decoding the n big-endian octets of x (x < 256^n) gives x back |
| Bytes.ToBEFromBE | uart/rp2/LPF2.py:75-76 | re-encoding the value of any octet string big-endian reproduces the string |
| Checksum.AddChecksum | uart/rp2/LPF2.py:59-65 | the result is the input plus exactly one byte, the input is an unchanged prefix, and the XOR of the whole result is 0xFF |
| Checksum.CheckByteUnique | uart/rp2/LPF2.py:59-65 | body + [c] passes the XOR check if and only if c is the byte addChksm appends |
| Checksum.SingleByteErrorDetected | uart/rp2/LPF2.py:59-65 | changing any single byte of a checked message makes the XOR check fail |
| Frames.LengthField | uart/rp2/LPF2.py:84 | proof helper for the header: exp << 3 as an octet (exp < 32) has exp mod 8 in bits 3-5, clear low bits, and clear kind bits when exp < 8 |
| Frames.Header | uart/rp2/LPF2.py:88 | base \| exp << 3 \| index keeps the base bits; for a base with clear low six bits it has mode index `index` and length class exp mod 8, and the base's kind while exp < 8 |
| Frames.InfoMessage | uart/rp2/LPF2.py:88 | an info message is the payload framed by header, sub-id and check byte; while exp < 8 its header announces exactly its length |
| Frames.SplitFlatten | uart/rp2/LPF2.py:119-126 | messages that each announce their own length are recovered, in order, from the bytes their consecutive writes put on the wire |
| Numeric.Width | uart/rp2/LPF2.py:26 | the `length` table: 1 byte exactly for Int8/uInt8, 2 exactly for Int16/uInt16, otherwise 4 |
| Numeric.ModulusIsPow256 | uart/rp2/LPF2.py:26-28 | proof helper: each type's value count is 256 to the power of its width and twice its signed half-range |
| Numeric.EncodeSingle | uart/rp2/LPF2.py:106-107 | packing '<f' gives 4 bytes that unpack to the same float bit pattern |
| Numeric.Pack | uart/rp2/LPF2.py:27-28 | ustruct.pack fails exactly for a float given to an integer type; otherwise the bytes have the type's width and unpack to the stored sample (an integer reduced modulo 256^width, a float unchanged) |
| Numeric.StoredInRange | uart/rp2/LPF2.py:27-28 | an integer is stored as the in-range integer congruent to it modulo 256^width, and storing changes a sample exactly when the type cannot represent it |
| Numeric.PackReadsBackExactly | uart/rp2/LPF2.py:27-28 | a packed sample reads back as itself if and only if it is a float or an integer within the type's range |
| Numeric.IntegerReadsBack | uart/rp2/LPF2.py:27-28 | two's complement: the low bytes of any integer unpack to its stored value |
| Numeric.UnpackInRange | uart/rp2/LPF2.py:27-28 | every byte string of an integer type's width unpacks to an in-range integer whose reduction is the bytes' unsigned value |
| Numeric.PackUnpack | uart/rp2/LPF2.py:27-28 | every byte string of a type's width is what packing its own unpacking gives |
| Numeric.PackAll | uart/rp2/LPF2.py:47-49 | the packing loop succeeds exactly when every element packs, producing width bytes per element |
| Numeric.PackAllStep | uart/rp2/LPF2.py:47-49 | proof helper for PackAllReadsBack: a packed head followed by a packed tail reads back as the whole list, stored |
| Numeric.StoredAll | uart/rp2/LPF2.py:47-49 | the list as read back has one stored sample per element, in order |
| Numeric.StoredAllExact | uart/rp2/LPF2.py:47-49 | a list reads back unchanged if and only if its type represents every element |
| Numeric.PackAllReadsBack | uart/rp2/LPF2.py:47-49 | the bytes of the packing loop unpack, in order, to the stored samples |
| Handshake.SetType | uart/rp2/LPF2.py:67-68 | 3 well-framed bytes: command 0x40, the sensor type, the check byte |
| Handshake.DefineBaud | uart/rp2/LPF2.py:70-72 | 6 well-framed bytes: command 0x52, then 4 bytes whose little-endian value is the baud rate |
| Handshake.DefineVers | uart/rp2/LPF2.py:74-77 | 10 well-framed bytes: command 0x5F, then 4 bytes whose big-endian value is the hardware version and 4 for the software version |
| Handshake.CountViewsIsSize | uart/rp2/LPF2.py:112-115 | the view count equals the number of modes whose view flag is set |
| Handshake.DefineModes | uart/rp2/LPF2.py:110-117 | 4 well-framed bytes: 0x49, mode count minus one mod 256, view count minus one mod 256 |
| Handshake.PredecessorWraps | uart/rp2/LPF2.py:111 | proof helper for DefineModesWraps: (k - 1) mod 256 is 255 exactly when k is a multiple of 256 |
| Handshake.DefineModesWraps | uart/rp2/LPF2.py:110-117 | the count field is 0xFF if and only if the number of modes is a multiple of 256 (an empty list included), and likewise for the views |
| ModeInfo.SizeExponent | uart/rp2/LPF2.py:82 | the least e with \|s\| <= 2^e (0 for an empty text); e <= 31, and e <= 7 exactly for texts of at most 128 bytes |
| ModeInfo.PadString | uart/rp2/LPF2.py:79-88 | a checked message with sub-id, mode index and the text followed by zeros, 3 + 2^e bytes long with length class e mod 8; well-framed info message when the text has at most 128 bytes |
| ModeInfo.PadStringLongMisframed | uart/rp2/LPF2.py:82-88 | a text longer than 128 bytes gets a header whose announced length differs from the message's length |
| ModeInfo.PadStringEmpty | uart/rp2/LPF2.py:82-87 | an empty text gets a one-byte field holding a single zero |
| ModeInfo.PadStringSingle | uart/rp2/LPF2.py:82-87 | a one-byte text fills its one-byte field with no padding |
| ModeInfo.PadStringThree | uart/rp2/LPF2.py:82-87 | a three-byte text is padded with one zero to a four-byte field |
| ModeInfo.BuildFunctMap | uart/rp2/LPF2.py:90-94 | 5 well-framed info bytes with length class 1, carrying sub-id, input type and output type |
| ModeInfo.BuildRange | uart/rp2/LPF2.py:104-108 | 11 well-framed info bytes with length class 3 whose two 4-byte floats decode to the range's minimum and maximum |
| ModeInfo.LowByte | uart/rp2/LPF2.py:98-101 | x & 0xFF is an octet congruent to x modulo 256, negative x included |
| ModeInfo.LowByteIsResidue | uart/rp2/LPF2.py:98-101 | any octet congruent to x modulo 256 is x & 0xFF and has the value x mod 256, so each field reads back as its residue |
| ModeInfo.BuildFormat | uart/rp2/LPF2.py:96-102 | 7 checked bytes; header 0x51 \| num, so command kind, length class 2 and mode index num \| 1; four fields each reduced mod 256 |
| ModeInfo.FormatHeaderCollides | uart/rp2/LPF2.py:96-102 | mode indices 0 and 1 get the same format header 0x51 |
| ModeInfo.FormatOverrunsHeader | uart/rp2/LPF2.py:96-102 | the format message is one byte longer than its header announces |
| ModeInfo.SetupMode | uart/rp2/LPF2.py:119-126 | seven messages in write order whose sub-ids are NAME, RAW, PCT, SI, UNITS, MAPPING, FORMAT |
| ModeInfo.SetupModeFramed | uart/rp2/LPF2.py:119-126 | every message setupMode writes passes the XOR check; the range and map messages are well-framed info messages for mode num, and so are the name and units messages when their texts have at most 128 bytes |
| ModeInfo.SetupModeTexts | uart/rp2/LPF2.py:120-124 | the name and units messages carry the mode's name and unit symbol followed by zeros |
| ModeInfo.SetupModeRanges | uart/rp2/LPF2.py:121-123 | the three range messages decode to the raw, percent and SI ranges, in that order |
| ModeInfo.SetupModeMapAndFormat | uart/rp2/LPF2.py:125-126 | the map message carries the mode's two type tags; the format message has header 0x51 \| num and the format fields mod 256 |
| ModeInfo.SplitPiecesAnnounced | uart/rp2/LPF2.py:119-126 | every piece a receiver cuts from a stream is as long as its header announces |
| ModeInfo.SetupModeInfoStream | uart/rp2/LPF2.py:119-125 | with texts of at most 128 bytes, a receiver recovers the first six messages, in order, from their concatenation |
| ModeInfo.SetupModeStreamMisframed | uart/rp2/LPF2.py:119-126 | the full seven-message stream does not cut back into its messages |
| Data.ArrayExponent | uart/rp2/LPF2.py:44-45 | the list length class is floor(log2(width * len)) capped at 4 |
| Data.ExponentCoversWidth | uart/rp2/LPF2.py:44-45 | 2^bit is a power of two from width up to width * len, and is either 16 or more than half of width * len |
| Data.KeptCount | uart/rp2/LPF2.py:46 | the kept elements fill exactly 2^bit <= 16 bytes, number between 1 and the list length, and doubling them would exceed the list or the 16-byte cap |
| Data.DataFrame | uart/rp2/LPF2.py:53 | header 0xC0 \| bit << 3 \| mode followed by the payload: data kind, mode index mode, payload length 2^class, no check byte |
| Data.ScalarTelegram | uart/rp2/LPF2.py:50-53 | a single value fails exactly when it does not pack; the telegram is 1 + width bytes; its payload unpacks to the stored value, and to the value itself if and only if the type represents it |
| Data.PackAllPrefix | uart/rp2/LPF2.py:46-49 | packing the first k elements succeeds exactly when each of them packs |
| Data.ArrayTelegram | uart/rp2/LPF2.py:43-49 | an empty list fails with the log2 domain error; otherwise the telegram exists exactly when the kept elements pack, and its payload unpacks to their stored values |
| Data.ArrayReadsBackExactly | uart/rp2/LPF2.py:43-49 | a list telegram's payload unpacks to the kept elements themselves if and only if the type represents each of them |
| Data.SendData | uart/rp2/LPF2.py:42-54 | a data telegram for mode `mode`; the domain error exactly for the empty list; a scalar fails exactly when it does not pack, and reads back as itself if and only if representable; a list's payload unpacks to the stored first KeptCount elements (the root module's sendData is the same function) |
| Data.DataTelegramLacksCheckByte | uart/rp2/LPF2.py:53-54 | a data telegram is one byte shorter than its header announces, so it is never well-framed |
| Data.PackInt16Example | uart/rp2/LPF2.py:27-28 | Int16 -1234 packs to 0x2E 0xFB |
| Data.SendDataInt16Example | LPF2.py:46-49 | Int16 -1234 for mode 2 is sent as 0xCA 0x2E 0xFB |
| Data.PackInt16WrapExample | uart/rp2/LPF2.py:27-28 | Int16 40000 is not rejected: it packs to 0x40 0x9C, which reads back as -25536 |
| Data.SendDataInt16WrapExample | uart/rp2/LPF2.py:50-54 | Int16 40000 for mode 0 is sent as 0xC8 0x40 0x9C |
| Data.FiveFloatsKeepFour | LPF2.py:40-42 | a list of five floats sends only its first four (16 bytes) |
| Data.ThreeInt16KeepTwo | LPF2.py:40-42 | a list of three Int16 values sends only its first two (4 bytes) |

## Left out

- Serial I/O: `write`, `__init__`, `initialize` and the bring-up script `uart/rp2/main.py` drive pins, clocks and the UART. `SetupMode` returns the seven messages in write order instead of writing them.
- The root module's `setupMode` refers to undefined names and cannot run, so it has no behaviour to model.
- IEEE-754 arithmetic: a float is its 32-bit pattern (`Numeric.Single`). How a Python float rounds to single precision is not modelled.
- Numeric.KindFits: for the 'float' type `ustruct.pack` would convert an integer sample to single precision. That conversion depends on float rounding, so float samples are required there. `Data.ReadingFits` asks this only of the scalar and of a list's first KeptCount elements, the ones that are packed.
- Frames.Header: the mode index is required to be below 8. The source ORs any integer into the header. An index from 8 to 255 would change the length and kind bits, and MicroPython's `bytearray` keeps only the low eight bits of a larger one. The model covers neither case.
- Handshake.DefineBaud and Handshake.DefineVers require values below 2^32. Larger or negative values are not covered: depending on the MicroPython version, `int.to_bytes` raises or keeps the low bytes.
- ModeInfo.PadString requires a text of at most 2^31 bytes, far beyond the microcontroller's RAM. Beyond that the shifted exponent exceeds 255 and MicroPython's `bytearray` would keep only its low eight bits. `math.log2` is taken to be exact on these lengths. On a single-precision port, a length above 2^24 could round to a power of two.
- ModeInfo.PadString: texts are byte strings, or `str` values of ASCII characters. For a non-ASCII `str`, `len` counts characters but `bytearray +=` appends UTF-8 bytes. For example, the unit "°C" has 2 characters and 3 bytes, so the source sends a 6-byte message whose header announces a 2-byte field. That case is not covered.
- Data.ArrayExponent: `math.log2` is taken to give exactly 0, 1, 2, 3 and 4 at 1, 2, 4, 8 and 16, and to round no other argument below 32 onto or across an integer. MicroPython on rp2 computes it in single precision. For arguments of 32 and above, the cap at 4 hides any rounding.
- Numeric.Pack follows MicroPython's `ustruct`, which the source imports: an out-of-range integer is written as its low bytes. CPython's `struct.error` for such values is not modelled.
- Other exceptions: a `KeyError` for an unknown type name cannot arise, because the type is a closed datatype. Arguments the source writes as single bytes (sensor type, sub-ids, map tags) are taken as octets. MicroPython's `bytearray` would keep the low eight bits of a larger value, which is that octet.
- Unused constants: `CMD_SELECT`, `CMD_WRITE`, `CMD_MSG`, `INFO_MODE_COMBOS`, `DATA8`..`DATAF`.
