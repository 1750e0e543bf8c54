# XHGC cartridge packer, modelled in Dafny

This project models the core of the XHGC cartridge packer. The packer builds a cartridge image in two steps:

- a fixed 4096-byte version-2 header, holding a 15-slot address table and a header CRC-32;
- four pipeline stages, run in order: ICON (slot 0), MANF (slot 2), ENTRY (slot 3) and DATA (slot 5).

Each stage starts from the image the previous stage wrote. It records where its section sits (offset, size and CRC) in its slot, pads the image to the next 4096-byte boundary, and optionally reseals the header CRC and the whole-image CRC in slot 6. The project also models:

- the library entry points `pack_header`, `pack_header_icon` and `verify_header`;
- the configuration loader `load_pack_json`;
- the background-colour parser and the BGRA pixel packing of the image helper;
- the older header layout of `format/header.py` and its loader `config/load.py`, each in a module of its own.

Modules, bottom up:

- `Errors`: the exceptions the code raises, and the `Result` and `Outcome` wrappers.
- `Bytes`: bytes, little-endian words, NUL padding, and in-place stores into an `array<byte>`.
- `Checksum`: the CRC-32 of IEEE 802.3.
- `PyStr`: the Python `str` operations the code uses, namely `strip`, `lstrip`, `startswith`, `int(s, 16)`, `int(s, 0)` and UTF-8 encoding. As in CPython, `int()` first rewrites every Unicode decimal digit (general category Nd, the 67 runs of Unicode 15 outside ASCII) to the ASCII digit of the same value. It then skips only the ASCII spaces ` \t\n\v\f\r` and non-ASCII whitespace around the numeral, not the separators U+001C..U+001F that `strip()` removes.
- `PyJson`: parsed JSON values, with `dict.get`, `in` and truthiness.
- `Align`: `align_to`.
- `AddrTable`: the slot table, with `write_slot` and `clear_all_slots` as methods on the header buffer.
- `HeaderV2`: `pack`, `pack_without_crc`, the CRC sealing and `inspect`.
- `Assemble`: the copy, then the slot write, the padding, the reseal and the image CRC, shared by MANF, ENTRY and DATA.
- `Icon`, `Manf`, `Entry`, `Data`: the four stages.
- `LexOrder`: `list.sort()` on strings.
- `ImgPillow`: the colour parser and the pixel packing.
- `Config`: `load_pack_json`.
- `Api`: the entry points.
- `LegacyHeader`, `LegacyLoad`: the legacy header and its loader.

How the code is modelled:

- Code that fills a `bytearray` step by step is an imperative `method` over an `array<byte>` or over local sequences. Each such method is proved equal to a specification function.
- The properties are proved about those functions.
- Stages are functions from the image read to the image written, or the error raised.
- The file system, the glob search, the Lua compiler and Pillow are inputs: values or function-typed parameters.

The quirks of the code are modelled as written:

- With `image_crc32` on, MANF, ENTRY and DATA append their section a second time.
- The slot-6 CRC is that of the image before slot 6 was written.
- ICON always reseals the header.
- The DATA index is computed but never written.
- The header reads the cart id in base 16 and the manifest reads it with `int(v, 0)`.
- A skipped manifest cart id still counts in the directory's starting offset.

The configuration loader passes keyword arguments that the `PackSpec`, `MetaSpec` and `BuildSpec` dataclasses do not declare. The model follows the loader: its records carry every field the loader passes.

## Model

| member | source | states |
|---|---|---|
| Align.AlignTo | src/xhcart_core/utils/align.py:12-14 | a non-positive `align` returns the value unchanged |
| Align.AndMaskLowBits | src/xhcart_core/utils/align.py:14 | for a power of two `a`, masking with `a - 1` keeps exactly the remainder modulo `a` |
| Align.AlignToDivForm | src/xhcart_core/utils/align.py:14 | for a power-of-two `align` the bitmask form equals `(value + align - 1) / align * align` |
| Align.AlignToBounds | src/xhcart_core/utils/align.py:14 | for a power-of-two `align` the result is a multiple of `align` and `value <= r < value + align`, for negative values too |
| Align.AlignToAligned | src/xhcart_core/utils/align.py:14 | a value already on the boundary is returned unchanged |
| Align.AlignToIdempotent | src/xhcart_core/utils/align.py:14 | aligning twice is aligning once |
| AddrTable.SlotsTileTable | src/xhcart_core/format/xhgc/addr_table.py:9-32 | slot `i` starts at `0x0F00 + 16 i`; the 15 slots lie in order, without overlap, exactly within bytes 3840..4079 |
| AddrTable.SlotWrite | src/xhcart_core/format/xhgc/addr_table.py:46-58 | an index outside 0..14 fails with "Invalid slot index" before anything else; otherwise the write succeeds exactly when the three values fit u64/u32/u32 and the buffer holds the slot, fails with `struct.error` otherwise, and yields the buffer with that slot set |
| AddrTable.ThreeStores | src/xhcart_core/format/xhgc/addr_table.py:52-58 | the three `pack_into` stores, when they all succeed, splice the slot's 16 bytes (LE u64 offset, LE u32 size, LE u32 crc) into the buffer |
| AddrTable.ReadSetSlot | src/xhcart_core/format/xhgc/addr_table.py:52-58 | a written slot reads back as the offset, size and crc written |
| AddrTable.ReadOtherSlot | src/xhcart_core/format/xhgc/addr_table.py:52-58 | writing one slot leaves every other slot's values unchanged |
| AddrTable.WriteSlot | src/xhcart_core/format/xhgc/addr_table.py:35-58 | on the caller's buffer: the outcome and new contents are those of `SlotWrite` (crc defaulting to 0); an invalid index changes nothing; no byte outside the chosen slot changes, even when a later store fails |
| AddrTable.ZeroSlotBytes | src/xhcart_core/format/xhgc/addr_table.py:69 | a slot written with (0, 0, 0) is 16 zero bytes |
| AddrTable.ClearedSlot | src/xhcart_core/format/xhgc/addr_table.py:68-69 | writing (0, 0, 0) into slot `i` zeroes its 16 bytes |
| AddrTable.ClearAllSlots | src/xhcart_core/format/xhgc/addr_table.py:61-69 | succeeds exactly when the buffer reaches byte 4080 (otherwise `struct.error`), zeroes bytes 3840..4079 and changes no other byte |
| Bytes.FromLEOfLE | src/xhcart_core/format/xhgc/header.py:276-279 | unpacking a little-endian field gives back the value packed |
| Bytes.LEOfFromLE | src/xhcart_core/format/xhgc/header.py:276-279 | packing an unpacked field gives back its bytes |
| Bytes.LEZero | src/xhcart_core/format/xhgc/header.py:157-159 | the encoding of 0 is all zero bytes |
| Bytes.PadTo | src/xhcart_core/format/xhgc/header.py:115 | `ljust(n, b'\x00')`: the bytes kept at the front, zeros up to length `n` |
| Bytes.RStripNul | src/xhcart_core/format/xhgc/header.py:282 | `rstrip(b'\x00')`: a prefix with no trailing zero byte, and only zeros removed |
| Bytes.RStripPad | src/xhcart_core/format/xhgc/header.py:115-116 | padding a string with no trailing NUL and stripping it again gives the string back |
| Bytes.PackInto | src/xhcart_core/format/xhgc/addr_table.py:52-58 | `struct.pack_into` of an unsigned LE field succeeds exactly when the value fits and the buffer is long enough, stores the field's bytes and changes no other byte |
| Bytes.StoreLE | src/xhcart_core/format/xhgc/addr_table.py:52-58 | the same store on a `bytearray`: same decision as `PackInto`, the buffer unchanged on failure |
| Checksum.Crc32 | src/xhcart_core/format/xhgc/header.py:165-166 | the CRC-32 value fits a u32 |
| PyStr.Utf8Concat | src/xhcart_core/format/xhgc/header.py:112 | `.encode('utf-8')` distributes over concatenation |
| PyStr.Utf8LastByte | src/xhcart_core/format/xhgc/header.py:282 | the encoding ends in a zero byte exactly when the string ends in NUL |
| PyStr.ParseHexLiteral | src/xhcart_core/format/xhgc/header.py:316 | `int(hex(n), 16) == n`: the id `inspect` reports parses back to the stored value |
| PyStr.HexPrefixed | src/xhcart_core/format/xhgc/header.py:103-106 | in `int(s, 16)` a leading `0x` is dropped, so both branches parse the same digits (after the rewriting of Unicode decimal digits) |
| PyStr.HexUnprefixed | src/xhcart_core/format/xhgc/header.py:106 | a numeral starting with 1..9 reads as its hexadecimal digits in `int(s, 16)`, Unicode decimal digits by their value |
| PyStr.AutoDecimal | src/xhcart_core/pipeline/build_manf.py:164 | the same numeral reads as decimal in `int(s, 0)`, Unicode decimal digits by their value |
| PyStr.AutoHexPrefix | src/xhcart_core/pipeline/build_manf.py:164 | a `0x` numeral reads as hexadecimal in `int(s, 0)`, Unicode decimal digits by their value |
| PyStr.DecimalDigit | src/xhcart_core/format/xhgc/header.py:104-106 | `int()` first rewrites every character of a Unicode decimal-digit run to the ASCII digit of its value: a non-ASCII, non-space character becomes a digit exactly when it lies in one of the 67 runs of Unicode 15 outside ASCII, and then the digit of its offset in the run |
| PyStr.ParseDecimals | src/xhcart_core/format/xhgc/header.py:104-106 | `ParseHex` and `ParseAuto` read a string exactly as they read its ASCII rewriting |
| PyStr.IntSpaceIsSpace | src/xhcart_core/format/xhgc/header.py:106 | every character `int()` skips around a numeral is whitespace for `str.strip()` |
| PyStr.IntLStrip | src/xhcart_core/format/xhgc/header.py:106 | `int()` skips exactly the leading ASCII spaces ` \t\n\v\f\r` and non-ASCII whitespace |
| PyStr.IntRStrip | src/xhcart_core/format/xhgc/header.py:106 | the same for trailing whitespace |
| PyStr.SeparatorRejected | src/xhcart_core/format/xhgc/header.py:104-109 | U+001C is whitespace to `str.strip()` but not to `int()`: an ASCII numeral that starts with it, such as the cart id `"\x1c1A"`, is rejected by `int(s, 16)` and `int(s, 0)` |
| PyStr.SpacesSkipped | src/xhcart_core/format/xhgc/header.py:104-109 | a tab before and a newline after an ASCII numeral change neither `int(s, 16)` nor `int(s, 0)` |
| PyStr.FullwidthHex | src/xhcart_core/format/xhgc/header.py:106 | two fullwidth digits U+FF10..U+FF19 are read by `int(s, 16)` as the two ASCII digits of the same values |
| PyStr.ArabicIndicAuto | src/xhcart_core/pipeline/build_manf.py:164 | two Arabic-Indic digits U+0660..U+0669 are read by `int(s, 0)` as a decimal number, a leading zero before a nonzero digit rejected as in ASCII |
| PyStr.FullwidthPrefix | src/xhcart_core/pipeline/build_manf.py:164 | a fullwidth zero followed by `x` is a hexadecimal prefix for `int(s, 0)` |
| PyJson.Get | src/xhcart_core/config/load.py:35 | `dict.get`: the stored value when present, the default otherwise, `AttributeError` on a value that is no dict |
| PyJson.Contains | src/xhcart_core/config/load.py:42 | `key in d` on a dict is key membership |
| HeaderV2.EncodeString | src/xhcart_core/format/xhgc/header.py:112-151 | a non-string fails with `AttributeError`; a UTF-8 encoding longer than capacity-1 fails with "meta.<name> exceeds capacity-1 bytes"; otherwise the result is the encoding, so capacity-1 bytes are accepted |
| HeaderV2.EncodeCartId | src/xhcart_core/format/xhgc/header.py:101-109 | a non-string fails with `AttributeError`, a string `int(s, 16)` rejects with "Invalid cart_id", a value outside u64 with `struct.error`; otherwise the parsed value |
| HeaderV2.EncodeFields | src/xhcart_core/format/xhgc/header.py:100-151 | succeeds exactly when the id and all six strings encode; the id's error comes first, then the title's; the result leaves each string room for a NUL |
| HeaderV2.EncodedValues | src/xhcart_core/format/xhgc/header.py:101-151 | the encoded id is `int(cart_id, 16)` and each encoded string is the UTF-8 of the meta string |
| HeaderV2.LayoutHead | src/xhcart_core/format/xhgc/header.py:88-109 | bytes 0..7 are "XHGC_PAC", LE u32 2 at 8, 4096 at 12, 0 at 16, and the id as LE u64 at 20 |
| HeaderV2.LayoutStrings | src/xhcart_core/format/xhgc/header.py:111-151 | the six strings are stored NUL-padded to 64/64/64/32/128/16 bytes at 28/92/156/220/252/380 |
| HeaderV2.LayoutRest | src/xhcart_core/format/xhgc/header.py:153-162 | every byte from 396 on is zero: the gap, the address table and the CRC field |
| HeaderV2.LayoutCrcZero | src/xhcart_core/format/xhgc/header.py:161-162 | the CRC field of the unsealed record is zero |
| HeaderV2.LayoutFields | src/xhcart_core/format/xhgc/header.py:86-162 | the record holds every value at the place `pack` stores it and zeros elsewhere |
| HeaderV2.LayoutClean | src/xhcart_core/format/xhgc/header.py:153-162 | clearing the address table and zeroing the CRC field leave the filled record unchanged |
| HeaderV2.ZeroCrc | src/xhcart_core/pipeline/build_icon.py:49-50 | the zeroed copy agrees with the record on 0..4091 and is zero at 4092..4095 |
| HeaderV2.SealBytes | src/xhcart_core/pipeline/build_icon.py:48-58 | the result agrees with the input on bytes 0..4091 and its LE u32 at 4092 is the CRC of the zeroed copy |
| HeaderV2.Seal | src/xhcart_core/pipeline/build_icon.py:45-58 | any length but 4096 fails with "Header length must be 4096 bytes"; otherwise the sealed record |
| HeaderV2.SealFixesSealed | src/xhcart_core/pipeline/build_icon.py:48-58 | resealing a sealed record leaves it unchanged |
| HeaderV2.SealIdempotent | src/xhcart_core/pipeline/build_icon.py:48-58 | sealing twice is sealing once |
| HeaderV2.SealZeroField | src/xhcart_core/format/xhgc/header.py:161-166 | when the CRC field is already zero, the CRC of the buffer itself is the CRC of the zeroed copy |
| HeaderV2.StoreCrc | src/xhcart_core/format/xhgc/header.py:169 | storing the CRC into the last four bytes replaces exactly those bytes |
| HeaderV2.PackWithoutCrcSpec | src/xhcart_core/format/xhgc/header.py:173-259 | succeeds exactly when the fields encode, with their error otherwise; the record is the layout, CRC field zero |
| HeaderV2.PackSpec | src/xhcart_core/format/xhgc/header.py:78-171 | succeeds exactly when the fields encode; the 4096-byte result agrees with the layout on 0..4091 and carries a valid CRC |
| HeaderV2.PackAgreesWithoutCrc | src/xhcart_core/format/xhgc/header.py:161-259 | `pack` and `pack_without_crc` fail alike, agree on bytes 0..4091, and `pack` is the sealed `pack_without_crc` |
| HeaderV2.StoreHead | src/xhcart_core/format/xhgc/header.py:86-109 | the stores of the magic, version, size, flags and id into `bytearray(4096)` give the layout's first 28 bytes, zeros after |
| HeaderV2.StoreStrings | src/xhcart_core/format/xhgc/header.py:111-151 | the six padded string stores extend that to the layout's first 396 bytes |
| HeaderV2.StoreFields | src/xhcart_core/format/xhgc/header.py:88-151 | every field store into a zeroed buffer gives the layout |
| HeaderV2.Fill | src/xhcart_core/format/xhgc/header.py:86-162 | a fresh 4096-byte buffer: with the fields' error when they do not encode, otherwise filled with the layout (table cleared, CRC field zero) |
| HeaderV2.Pack | src/xhcart_core/format/xhgc/header.py:78-171 | the imperative `pack` returns exactly `PackSpec` |
| HeaderV2.PackSealed | src/xhcart_core/format/xhgc/header.py:164-171 | storing the CRC of the filled buffer into its CRC field gives the sealed record |
| HeaderV2.PackWithoutCrc | src/xhcart_core/format/xhgc/header.py:173-259 | the imperative `pack_without_crc` returns exactly `PackWithoutCrcSpec` |
| HeaderV2.Reseal | src/xhcart_core/pipeline/build_icon.py:31-58 | on the caller's buffer: any length but 4096 fails and changes nothing; otherwise the buffer becomes the sealed record |
| HeaderV2.NumberedSlotNames | src/xhcart_core/format/xhgc/header.py:294-302 | slots 6..14 are named "SLOT" followed by the index in decimal |
| HeaderV2.SlotTable | src/xhcart_core/format/xhgc/header.py:296-309 | `inspect` lists 15 slots |
| HeaderV2.ReadTable | src/xhcart_core/format/xhgc/header.py:293-309 | the slot loop builds exactly the slot table |
| HeaderV2.InspectSpec | src/xhcart_core/format/xhgc/header.py:271-327 | rejects any length but 4096 with "Invalid header size"; otherwise lists 15 slots |
| HeaderV2.Inspect | src/xhcart_core/format/xhgc/header.py:261-327 | the imperative `inspect` returns exactly `InspectSpec` |
| HeaderV2.StringReadBack | src/xhcart_core/format/xhgc/header.py:282-287 | a NUL-padded string field reads back as the string when it has no trailing NUL |
| HeaderV2.ReadFixed | src/xhcart_core/format/xhgc/header.py:275-279 | the magic, version, size, flags and id read back from a laid-out record |
| HeaderV2.ReadStrings | src/xhcart_core/format/xhgc/header.py:282-287 | the six strings read back from a laid-out record |
| HeaderV2.SlotReadBack | src/xhcart_core/format/xhgc/header.py:296-300 | each slot of a freshly packed record reads as (0, 0, 0) |
| HeaderV2.EncodedReadable | src/xhcart_core/format/xhgc/header.py:112-151 | encodings of strings with no trailing NUL have no trailing zero byte |
| HeaderV2.EmptyTable | src/xhcart_core/format/xhgc/header.py:296-309 | the slot list of a freshly packed header has 15 entries |
| HeaderV2.SealedCrc | src/xhcart_core/format/xhgc/header.py:290 | the CRC field of a packed header holds the CRC of the unsealed record |
| HeaderV2.SealedTable | src/xhcart_core/format/xhgc/header.py:296-309 | every slot of a packed header is listed as empty, with the names ICON..DATA, SLOT6..SLOT14 |
| HeaderV2.InspectSealed | src/xhcart_core/format/xhgc/header.py:271-327 | `inspect` of a sealed layout reports exactly the values laid out |
| HeaderV2.InspectPacked | src/xhcart_core/format/xhgc/header.py:271-327 | on `pack` output, `inspect` returns the UTF-8 of each meta string (none ending in NUL) and an id that `int(s, 16)` reads as the packed id |
| Icon.IconPath | src/xhcart_core/pipeline/build_icon.py:205-211 | a falsy icon configuration fails with "icon configuration missing", a falsy `icon.path` with "icon.path missing", a non-dict with `AttributeError`; otherwise the configured path |
| Icon.PreprocessOf | src/xhcart_core/pipeline/build_icon.py:235-238 | the `preprocess` options with their defaults mode "contain", background "#000000", resample "lanczos" |
| Icon.LoadIcon | src/xhcart_core/pipeline/build_icon.py:228-258 | a missing file fails with "Icon file not found"; a processing error becomes "Failed to process icon"; data of any length but 200*200*4 = 160000 is a size mismatch; otherwise the processed data |
| Icon.IconPadding | src/xhcart_core/pipeline/build_icon.py:89-92 | the padding is `align_to(164096, 4096) - 164096` zero bytes |
| Icon.IconHeader | src/xhcart_core/pipeline/build_icon.py:82-125 | the header with slot 0 written and resealed stays 4096 bytes |
| Icon.IconHeaderShape | src/xhcart_core/pipeline/build_icon.py:78-82 | the resealed header has slot 0 = (4096, 160000, 0), the icon CRC deliberately 0, every other slot and every byte before the table as packed, a valid CRC |
| Icon.VerifyHeaderCrc | src/xhcart_core/pipeline/build_icon.py:149-194 | passes exactly when the first 4096 bytes carry a valid CRC; a file shorter than the header fails to unpack; a mismatch reports the stored and the computed CRC |
| Icon.IconSlotWrite | src/xhcart_core/pipeline/build_icon.py:82 | writing slot 0 of a full header cannot fail |
| Icon.WriteIconSlot | src/xhcart_core/pipeline/build_icon.py:75-82 | a fresh `bytearray` of the packed header with slot 0 written |
| Icon.Finish | src/xhcart_core/pipeline/build_icon.py:100-128 | resealing in place and assembling, with the slot-6 copy when `image_crc32` is on, gives exactly `IconImage` |
| Icon.IconImage | src/xhcart_core/pipeline/build_icon.py:100-128 | the image is 167936 bytes long whether `image_crc32` is on or off |
| Icon.Build | src/xhcart_core/pipeline/build_icon.py:60-134 | the imperative stage returns exactly `BuildSpec` |
| Icon.StageValue | src/xhcart_core/pipeline/build_icon.py:82-128 | on a full header the stage succeeds exactly when the icon path is configured and the icon loads, reports the first failure, and writes `IconImage` of the loaded data |
| Icon.IconValue | src/xhcart_core/pipeline/build_icon.py:72-128 | a successful stage writes `IconImage` of the packed header and the icon data, and the same with slot 6 left empty when `image_crc32` is off |
| Icon.IconBody | src/xhcart_core/pipeline/build_icon.py:89-92 | after the header come the icon bytes and then only zeros |
| Icon.IconImageLayout | src/xhcart_core/pipeline/build_icon.py:100-128 | the assembled image has the layout `IconLaidOut` describes, `image_crc32` on or off |
| Icon.PackedSlotsEmpty | src/xhcart_core/format/xhgc/header.py:153-159 | a freshly packed header lists every slot as empty |
| Icon.IconLayout | src/xhcart_core/pipeline/build_icon.py:72-128 | the written image is 167936 bytes: a header with a valid CRC whatever `header_crc32` says, fields as packed, slot 0 = (4096, 160000, 0), every slot but 0 and 6 empty (6 too with `image_crc32` off), the icon at 4096..164095, then zeros |
| Icon.IconImageRecorded | src/xhcart_core/pipeline/build_icon.py:103-122 | with `image_crc32` on, slot 6 holds (0, length, CRC) of the image assembled before slot 6 was written, and the bytes after the header are unchanged |
| Icon.IconImageCrc | src/xhcart_core/pipeline/build_icon.py:103-122 | so the stored image CRC is that of the image with an empty slot 6, not of the file written |
| Icon.IconOutcome | src/xhcart_core/pipeline/build_icon.py:72-86 | the stage fails exactly when the header, the icon configuration or the icon fails, and reports the first of these, so a missing configuration is reported before any processing |
| Icon.BuildVerifies | src/xhcart_core/pipeline/build_icon.py:133-134 | the image written always passes the read-back CRC check |
| Assemble.SectionCrc | src/xhcart_core/pipeline/build_manf.py:67-68 | the section CRC fits a u32 and is 0 for an empty section |
| Assemble.Aligned | src/xhcart_core/pipeline/build_manf.py:71 | the rounded length is the least multiple of 4096 at or above the length, and an aligned length is kept |
| Assemble.AlignedIsAlignTo | src/xhcart_core/pipeline/build_manf.py:71 | that rounding is `align_to(n, 4096)` |
| Assemble.SectionOffset | src/xhcart_core/pipeline/build_manf.py:70-71 | the section is recorded at `align_to(len(cart_data), 4096)` |
| Assemble.Padding | src/xhcart_core/pipeline/build_manf.py:76-80 | fewer than 4096 zero bytes that bring offset + size to a boundary |
| Assemble.MaybeSeal | src/xhcart_core/pipeline/build_manf.py:90-94 | the header is resealed when `header_crc32` is truthy and left as it is otherwise |
| Assemble.AppendSection | src/xhcart_core/pipeline/build_manf.py:56-116 | the shared assembly on a `bytearray` copy of the header returns exactly `AppendSpec` |
| Assemble.SlotHeader | src/xhcart_core/pipeline/build_manf.py:61-74 | the slot-written copy of the header is 4096 bytes |
| Assemble.SectionHeaderSteps | src/xhcart_core/pipeline/build_manf.py:73-94 | the stage's header is the slot write followed by the reseal exactly when `header_crc32` is truthy |
| Assemble.SlotHeaderSlots | src/xhcart_core/pipeline/build_manf.py:73-74 | the stage's slot reads back as (aligned offset, size, CRC) and every other slot is as read |
| Assemble.SlotHeaderTail | src/xhcart_core/pipeline/build_manf.py:73-74 | the slot write leaves the CRC field alone |
| Assemble.SectionHeaderShape | src/xhcart_core/pipeline/build_manf.py:61-94 | the new header records the section in its slot, keeps every other slot and byte before the CRC field, is sealed when `header_crc32` is truthy and keeps the CRC field read from disk otherwise |
| Assemble.AssembledLaidOut | src/xhcart_core/pipeline/build_manf.py:97 | the first assembly is the new header, the old image after its header, the section, then under 4096 zero bytes; it is aligned exactly when the old image was |
| Assemble.AppendPlain | src/xhcart_core/pipeline/build_manf.py:97 | with `image_crc32` off the output is laid out that way, and the recorded offset is where the section starts exactly when the old image was aligned |
| Assemble.AppendSlots | src/xhcart_core/pipeline/build_manf.py:73-97 | with `image_crc32` off the output records the section in its slot, keeps every other slot and is sealed when `header_crc32` is truthy |
| Assemble.PlainValue | src/xhcart_core/pipeline/build_manf.py:97 | with `image_crc32` off the output is the first assembly |
| Assemble.PlainAlignment | src/xhcart_core/pipeline/build_manf.py:71-80 | the recorded offset equals the old length, and the new length is on a boundary, exactly when the old length was on one |
| Assemble.ImageHeader | src/xhcart_core/pipeline/build_manf.py:105-110 | the copy with slot 6 written and optionally resealed is 4096 bytes |
| Assemble.ImageLaidOut | src/xhcart_core/pipeline/build_manf.py:100-113 | the file rebuilt from that copy holds the first assembly after its header, then the section and its padding a second time, with slot 6 = (0, length, CRC) of the first assembly |
| Assemble.ImageStepValue | src/xhcart_core/pipeline/build_manf.py:105-110 | on a full header the slot-6 step succeeds with `ImageHeader` |
| Assemble.ImageHeaderBytes | src/xhcart_core/pipeline/build_manf.py:105-110 | the final header differs from the stage's only in slot 6 and, when resealed, in a valid CRC field; unsealed it keeps the stage's CRC field |
| Assemble.ImageSlots | src/xhcart_core/pipeline/build_manf.py:106 | slot 6 reads (0, length, CRC) of the first assembly and every other slot is the first assembly's |
| Assemble.ImageValue | src/xhcart_core/pipeline/build_manf.py:100-113 | with `image_crc32` on the output is the final header, the first assembly after its header, and the section and padding once more |
| Assemble.AppendImage | src/xhcart_core/pipeline/build_manf.py:100-113 | with `image_crc32` on, the file is what `ImageRecorded` says about the first assembly, so for a non-empty section the length in slot 6 is shorter than the file (the stale, doubled-section behaviour) |
| Assemble.AppendExtends | src/xhcart_core/pipeline/build_manf.py:97-113 | a stage never shortens the image and keeps everything after the header in place, the section after it |
| Assemble.SectionHeaderOutcome | src/xhcart_core/pipeline/build_manf.py:61-94 | the header step fails with "Invalid slot index" for a bad slot, then with `struct.error` when the image is too short for the slot or the offset/size do not fit, then with the reseal's length error for a short image |
| Assemble.AppendOutcome | src/xhcart_core/pipeline/build_manf.py:61-113 | the stage fails as its header step does, or with `image_crc32` on with `struct.error` when slot 6 cannot be written or the length does not fit a u32 |
| Assemble.ImageStepOutcome | src/xhcart_core/pipeline/build_manf.py:105-110 | the slot-6 write fails only with `struct.error`, and the reseal after it cannot fail |
| Manf.JoinLines | src/xhcart_core/pipeline/build_manf.py:234 | joining the tag list succeeds exactly when every item is a string, and fails with `TypeError` otherwise |
| Manf.TagsValue | src/xhcart_core/pipeline/build_manf.py:232-236 | falsy tags record nothing, a non-list is recorded as it is, and a truthy list is recorded exactly when all its items are strings |
| Manf.Split | src/xhcart_core/pipeline/build_manf.py:222-227 | a description or author always yields the values of its two ids |
| Manf.Candidates | src/xhcart_core/pipeline/build_manf.py:211-244 | one candidate value per field id 1..14 |
| Manf.NonNull | src/xhcart_core/pipeline/build_manf.py:247 | the kept fields are the non-`None` candidates with their own ids, in strictly ascending id order |
| Manf.NonNullPresent | src/xhcart_core/pipeline/build_manf.py:247 | every non-`None` candidate is among the kept fields |
| Manf.CollectFields | src/xhcart_core/pipeline/build_manf.py:201-247 | collecting fails only on the tag list (`TypeError`); otherwise at most 14 fields, ids in 1..14, ascending, none `None` |
| Manf.CollectedFields | src/xhcart_core/pipeline/build_manf.py:211-247 | a field id is collected exactly when its candidate is not `None`, and then with that value |
| Manf.FieldBytes | src/xhcart_core/pipeline/build_manf.py:161-170 | a field is skipped exactly when it is the cart id, a string that `int(v, 0)` rejects |
| Manf.CartIdDecimal | src/xhcart_core/pipeline/build_manf.py:164 | "1234" is 0x1234 as a header cart id but 1234 in the manifest |
| Manf.CartIdHexDigits | src/xhcart_core/pipeline/build_manf.py:163-167 | "1A2B", a valid header cart id, is skipped by the manifest, while "0x1A2B" is read as 0x1A2B |
| Manf.Kept | src/xhcart_core/pipeline/build_manf.py:151-167 | the written fields are no more than the collected ones |
| Manf.KeptCollected | src/xhcart_core/pipeline/build_manf.py:151-167 | the written fields are still in ascending id order with no id above the last collected one |
| Manf.KeptAll | src/xhcart_core/pipeline/build_manf.py:151-167 | with nothing skipped every collected field is written |
| Manf.KeptSkip | src/xhcart_core/pipeline/build_manf.py:161-167 | a skipped cart id is the only field left out |
| Manf.SkipCount | src/xhcart_core/pipeline/build_manf.py:151-167 | the loop drops one field when the cart id is skipped and none otherwise |
| Manf.Frame | src/xhcart_core/pipeline/build_manf.py:173-175 | a framed blob is 2 length bytes followed by the blob |
| Manf.Step | src/xhcart_core/pipeline/build_manf.py:160-184 | one pass fails as the encoding fails, is skipped, fails with `struct.error` on a blob of 65536 bytes or more, or adds one entry at the current offset and advances the offset by 2 + the blob's length |
| Manf.FoldNext | src/xhcart_core/pipeline/build_manf.py:151-184 | the loop through one more field takes one more step |
| Manf.StepShaped | src/xhcart_core/pipeline/build_manf.py:173-184 | one step keeps the entries, blobs and offsets in step with the written fields |
| Manf.FrameShaped | src/xhcart_core/pipeline/build_manf.py:173-184 | framing one more blob at the current offset keeps that shape |
| Manf.StepEncodes | src/xhcart_core/pipeline/build_manf.py:160-175 | one step keeps each blob the encoding of its field |
| Manf.FoldShape | src/xhcart_core/pipeline/build_manf.py:147-184 | after the loop every entry holds its written field's id and `16 + 8 * len(fields)` plus the frames before it, and every blob encodes its field |
| Manf.EntryBytes | src/xhcart_core/pipeline/build_manf.py:178-180 | a directory entry is 8 bytes |
| Manf.Directory | src/xhcart_core/pipeline/build_manf.py:195-196 | the directory is 8 bytes per entry |
| Manf.ManfHeader | src/xhcart_core/pipeline/build_manf.py:187-191 | the MANF header is 16 bytes |
| Manf.ManfHeaderFields | src/xhcart_core/pipeline/build_manf.py:19-20 | the header's words read back as the magic 0x464E414D, version 1, the total size and the field count |
| Manf.OffsetBound | src/xhcart_core/pipeline/build_manf.py:180 | the offset a collected list can reach fits the u32 of `struct.pack('<I')` |
| Manf.FoldFits | src/xhcart_core/pipeline/build_manf.py:178-190 | every entry of the loop serialises with a u8 id and a u32 offset |
| Manf.DirectoryAt | src/xhcart_core/pipeline/build_manf.py:195-196 | entry `j` of the directory is its `j`-th 8-byte group |
| Manf.BlobDataAt | src/xhcart_core/pipeline/build_manf.py:174-175 | blob `j` is framed right after the frames of the blobs before it |
| Manf.SectionHeaderFields | src/xhcart_core/pipeline/build_manf.py:186-197 | a section's length is header + directory + frames and its header words read back |
| Manf.SectionEntry | src/xhcart_core/pipeline/build_manf.py:194-196 | entry `j` sits right after the 16-byte header |
| Manf.SectionFrame | src/xhcart_core/pipeline/build_manf.py:194-197 | frame `j` sits after the directory and the frames before it, its first two bytes give the blob's length and the rest is the blob |
| Manf.FrameParts | src/xhcart_core/pipeline/build_manf.py:174-175 | a frame's first two bytes decode to its blob's length and the rest is the blob |
| Manf.ContentValue | src/xhcart_core/pipeline/build_manf.py:132-199 | the content is the section of the loop's final offset, entries and blobs, one entry and one blob per written field |
| Manf.ContentHeader | src/xhcart_core/pipeline/build_manf.py:186-191 | `total_size` is the final offset, which exceeds the section's length by 8 bytes per skipped field, and `field_count` is the number of written fields |
| Manf.ContentEntry | src/xhcart_core/pipeline/build_manf.py:177-181 | directory entry `j` holds the id of the `j`-th written field and the offset the loop had when writing it |
| Manf.ContentBlob | src/xhcart_core/pipeline/build_manf.py:160-175 | the `j`-th blob is the UTF-8 text or the u64 cart id of the `j`-th written field |
| Manf.EntryTarget | src/xhcart_core/pipeline/build_manf.py:147-148 | an entry points at its frame when nothing was skipped and 8 bytes past it when the cart id was skipped |
| Manf.ContentOutcome | src/xhcart_core/pipeline/build_manf.py:132-199 | building the content fails with `TypeError` on the tag list, otherwise exactly when a collected field is rejected, with the error of the first one |
| Manf.BuildContent | src/xhcart_core/pipeline/build_manf.py:132-199 | the step-by-step method computes that content or that error |
| Manf.AppendEntries | src/xhcart_core/pipeline/build_manf.py:195-196 | the loop appends the directory |
| Manf.EncodeFields | src/xhcart_core/pipeline/build_manf.py:151-184 | the loop's `field_entries`, `field_data` and `current_offset` are those of the fold, and it fails exactly when the fold does, with its error |
| Manf.TakeField | src/xhcart_core/pipeline/build_manf.py:152-184 | one pass on the loop variables makes the decision of `Step` and updates them as it updates the body |
| Manf.StepRejects | src/xhcart_core/pipeline/build_manf.py:163-174 | one step fails exactly on a rejected field, with its error |
| Manf.FoldRejected | src/xhcart_core/pipeline/build_manf.py:151-184 | a failed loop stopped at its first rejected field, with that field's error |
| Manf.FoldAccepts | src/xhcart_core/pipeline/build_manf.py:151-184 | a loop meeting no rejected field succeeds |
| Manf.FoldAcceptedAll | src/xhcart_core/pipeline/build_manf.py:151-184 | a loop that succeeded met no rejected field |
| Manf.FoldFails | src/xhcart_core/pipeline/build_manf.py:151-184 | a failure at one field ends the whole loop with that failure |
| Manf.Build | src/xhcart_core/pipeline/build_manf.py:49-116 | the stage method computes the stage's image or error |
| Manf.StageOutcome | src/xhcart_core/pipeline/build_manf.py:61-97 | the stage fails as the content does, and otherwise is the shared append of the content into slot 2 |
| Manf.StagePlain | src/xhcart_core/pipeline/build_manf.py:67-97 | without `image_crc32`, slot 2 holds the section's aligned offset, size and CRC, other slots are kept, the header is sealed when `header_crc32` is truthy and the section follows the old image padded to 4096 |
| Manf.StageImage | src/xhcart_core/pipeline/build_manf.py:99-113 | with `image_crc32`, slot 6 records the whole image written without it, and the header is resealed when asked |
| Entry.IsLuaChunk | src/xhcart_core/pipeline/build_entry.py:173 | the `LUA` test succeeds only on a dict chunk and otherwise raises `AttributeError` |
| Entry.Select | src/xhcart_core/pipeline/build_entry.py:173 | the comprehension keeps only items that pass the test, and a failure is the error of some item's test |
| Entry.LuaChunks | src/xhcart_core/pipeline/build_entry.py:173 | every chunk kept is a dict whose stripped type is `LUA`, and a failure is `AttributeError` |
| Entry.SelectDefined | src/xhcart_core/pipeline/build_entry.py:173 | the comprehension fails exactly when the condition raises on some item |
| Entry.SelectStep | src/xhcart_core/pipeline/build_entry.py:173 | the comprehension keeps the first item when it passes, followed by what it keeps of the rest |
| Entry.SelectNone | src/xhcart_core/pipeline/build_entry.py:173-176 | the comprehension keeps nothing exactly when no item passes |
| Entry.SelectFirst | src/xhcart_core/pipeline/build_entry.py:173-179 | the first chunk kept is the first item that passes |
| Entry.EntryPathOf | src/xhcart_core/pipeline/build_entry.py:165-196 | the entry source is the first match of the glob of the first `LUA` chunk; a chunk the condition raises on, no `LUA` chunk, a missing glob, a non-string glob, an anchored glob (`NotImplementedError` from `Path.glob`) and an empty match list each fail with their own error |
| Entry.RFind | src/xhcart_core/pipeline/build_entry.py:212 | the index of the last occurrence is -1 or an index into the text |
| Entry.RFindLast | src/xhcart_core/pipeline/build_entry.py:212 | the index found holds the character, and no later index does |
| Entry.RFindAfter | src/xhcart_core/pipeline/build_entry.py:212 | the last occurrence in `s + c + t` is the one after `s` when `t` has none |
| Entry.Name | src/xhcart_core/pipeline/build_entry.py:212 | a path's name is no longer than the path |
| Entry.SuffixShape | src/xhcart_core/pipeline/build_entry.py:212 | a suffix is empty or a dot and at least one more character with no other dot or `/`, at the end of the path |
| Entry.NameAfterSlash | src/xhcart_core/pipeline/build_entry.py:212 | the name of `dir/name` is `name` |
| Entry.SuffixFrom | src/xhcart_core/pipeline/build_entry.py:212 | the suffix is the name from its last dot when that dot is neither first nor last, and empty otherwise |
| Entry.LuaName | src/xhcart_core/pipeline/build_entry.py:212 | the name of `dir/stem.lua` is `stem.lua` |
| Entry.LuaDot | src/xhcart_core/pipeline/build_entry.py:212 | the last dot of `stem.lua` is the one before `lua` |
| Entry.LuaSuffix | src/xhcart_core/pipeline/build_entry.py:211-213 | `dir/stem.lua` has the suffix `.lua` for a non-empty stem, whatever dots the stem holds |
| Entry.HiddenLuaFile | src/xhcart_core/pipeline/build_entry.py:211-213 | a file named `.lua` has no suffix and so is rejected |
| Entry.Bytecode | src/xhcart_core/pipeline/build_entry.py:198-242 | compiling succeeds exactly when the file exists, its suffix is `.lua` in any case, the compiler exists and exits with 0, and yields the compiler's output; a missing file and a wrong suffix fail with their own errors |
| Entry.LuaSuffixAnyCase | src/xhcart_core/pipeline/build_entry.py:212 | the suffix test accepts exactly a dot followed by `l`, `u`, `a`, each in either case |
| Entry.Build | src/xhcart_core/pipeline/build_entry.py:67-149 | the stage method computes the stage's image or error |
| Entry.StageOutcome | src/xhcart_core/pipeline/build_entry.py:79-130 | resolving or compiling fails the stage before any slot is written; otherwise the stage is the shared append of the bytecode into slot 3 |
| Entry.StagePlain | src/xhcart_core/pipeline/build_entry.py:99-130 | without `image_crc32`, slot 3 holds the bytecode's aligned offset, size and CRC, other slots are kept, the header is sealed when `header_crc32` is truthy and keeps its stored CRC otherwise, and the bytecode follows the old image padded to 4096 |
| Entry.StageImage | src/xhcart_core/pipeline/build_entry.py:132-146 | with `image_crc32`, slot 6 records the whole image written without it, and the header is resealed when asked |
| Data.MatchOne | src/xhcart_core/pipeline/build_data.py:179 | `file_path.match(p)` raises exactly for a pattern that is not a string (`TypeError`) or has no component, such as `""`, `"."` or `"./."` (`ValueError("empty pattern")`), and otherwise answers whether the pattern matches |
| Data.ComponentFree | src/xhcart_core/pipeline/build_data.py:179 | `""`, `"."`, `"./"` and `"./."` have no component for `Path.match`; `"/"`, `".."` and `".git"` have |
| Data.FoundExactly | src/xhcart_core/pipeline/build_data.py:174-184 | when the search succeeds, a path is in its result exactly when it is a glob result, a regular file, and the exclusion test keeps it |
| Data.FoundFails | src/xhcart_core/pipeline/build_data.py:174-181 | the search fails exactly when the exclusion test raises on some regular file among the glob results |
| Data.FoundFirstError | src/xhcart_core/pipeline/build_data.py:174-181 | the error is that of the first regular file whose exclusion test raises |
| Data.NotIterable | src/xhcart_core/pipeline/build_data.py:178 | an `exclude` that is `null`, a boolean or a number raises `TypeError` exactly when some glob result is a regular file |
| Data.ExcludedByStrings | src/xhcart_core/pipeline/build_data.py:178-181 | with a list of string patterns that all have a component, a file is excluded exactly when one of them matches it |
| Data.FirstDot | src/xhcart_core/pipeline/build_data.py:178-181 | the position of the first `.` of a string, where the character-by-character loop meets the one pattern `Path.match` refuses |
| Data.StringExclude | src/xhcart_core/pipeline/build_data.py:178-181 | a string `exclude` is iterated character by character: a file is excluded exactly when a one-character pattern before the first `.` matches it; otherwise reaching a `.` raises `ValueError`, and a string without `.` keeps the file |
| Data.DotStringRaises | src/xhcart_core/pipeline/build_data.py:178-181 | so `"exclude": ".git"` tries `.` first and raises `ValueError` for every regular file |
| Data.StarStringExcludes | src/xhcart_core/pipeline/build_data.py:178-181 | so `"exclude": "*.tmp"` excludes every file that `*` matches, whatever its suffix |
| Data.MatchAny | src/xhcart_core/pipeline/build_data.py:178-181 | the inner loop with `break` computes the exclusion test of `ExcludedBy`: the first match excludes, the first raising pattern before a match is the error |
| Data.TestExcluded | src/xhcart_core/pipeline/build_data.py:177-181 | the exclusion test of one file is `Excluded` for every kind of `exclude` |
| Data.FoundInFails | src/xhcart_core/pipeline/build_data.py:174-181 | a failure among the first glob results is the failure of the whole search |
| Data.Found | src/xhcart_core/pipeline/build_data.py:172-174 | `Path.glob` refuses an anchored pattern with `NotImplementedError`; a relative one runs the glob loop |
| Data.FindFiles | src/xhcart_core/pipeline/build_data.py:158-186 | the imperative `_find_files` returns exactly `Found`: the kept regular files in glob order, or the first error |
| Data.PlanChunk | src/xhcart_core/pipeline/build_data.py:48-69 | the imperative head of the chunk loop returns exactly `ChunkPlan` |
| Data.ChunkPlanOf | src/xhcart_core/pipeline/build_data.py:48-69 | exactly the dict chunks typed `LUA` or `RES` with a truthy glob reach the search; these fail exactly when the glob is not a string (`TypeError`) or the file search fails, an anchored glob failing with `NotImplementedError`; the others contribute nothing; the files are those found, ascending under `"lex"` (the default) and as found otherwise |
| Data.LexOrderUnique | src/xhcart_core/pipeline/build_data.py:67-69 | under `"lex"` the files are the one ascending arrangement of what was found |
| Data.RelativePath | src/xhcart_core/pipeline/build_data.py:188-213 | the packaged relative path is a suffix of the path relative to the `pack.json` directory, and fails exactly when a truthy `strip_prefix` is not a string |
| Data.PackPath | src/xhcart_core/pipeline/build_data.py:77 | the package path is `name_prefix` followed by the relative path, and fails unless the prefix is a string |
| Data.PackagedPath | src/xhcart_core/pipeline/build_data.py:74-77 | a file at `strip/q` is packaged as `name + q`, whether or not the strip prefix ends in `/` |
| Data.UnstrippedPath | src/xhcart_core/pipeline/build_data.py:205-213 | with no strip prefix a relative path not starting with `/` is kept as it is |
| Data.FileItem | src/xhcart_core/pipeline/build_data.py:79-85 | a file's item holds the bytes read and their CRC |
| Data.ChunkItems | src/xhcart_core/pipeline/build_data.py:72-96 | one item per file of a chunk |
| Data.Entries | src/xhcart_core/pipeline/build_data.py:91-96 | one index entry per item |
| Data.EntryAt | src/xhcart_core/pipeline/build_data.py:91-96 | entry `i` records the item's path, `data_offset` plus the sizes of the items before it, its size and its CRC |
| Data.ContentConcat | src/xhcart_core/pipeline/build_data.py:88 | the section of two item lists is the section of the first followed by that of the second |
| Data.EntriesAppend | src/xhcart_core/pipeline/build_data.py:88-96 | one more item appends its entry at the end of the section so far |
| Data.EntryLocates | src/xhcart_core/pipeline/build_data.py:88-96 | each index entry locates its file: the section holds the file's bytes at the entry's offset minus `data_offset`, with the entry's size and CRC |
| Data.EntryNext | src/xhcart_core/pipeline/build_data.py:93 | each entry starts where the one before it ends |
| Data.EntriesTile | src/xhcart_core/pipeline/build_data.py:41-96 | the entries tile the section from `data_offset` to its end |
| Data.PlannedStep | src/xhcart_core/pipeline/build_data.py:48-96 | one more chunk fails as its plan or a file fails, adds nothing when it does not contribute, and otherwise appends its files' items |
| Data.PlannedFails | src/xhcart_core/pipeline/build_data.py:48-96 | a failure among the first chunks is the failure of the whole loop |
| Data.ChunkItemsFails | src/xhcart_core/pipeline/build_data.py:72-96 | a failure among the first files of a chunk is the failure of the chunk |
| Data.ChunkItemsStep | src/xhcart_core/pipeline/build_data.py:72-96 | one more file appends its item |
| Data.LayoutStep | src/xhcart_core/pipeline/build_data.py:88-96 | the file loop's update of `data_content` and `index_entries` is one more item of the section and the index |
| Data.AppendChunk | src/xhcart_core/pipeline/build_data.py:72-96 | the inner loop extends the section and the index by the chunk's items, or fails with the first error |
| Data.BuildContent | src/xhcart_core/pipeline/build_data.py:41-96 | the chunk loop computes the section and the index of the specification, or its failure |
| Data.Build | src/xhcart_core/pipeline/build_data.py:26-145 | the stage method computes the stage's image or error |
| Data.StagePlain | src/xhcart_core/pipeline/build_data.py:98-126 | without `image_crc32`, slot 5 holds the section's aligned offset, size and CRC, slot 4 and every other slot are kept, the header is sealed when `header_crc32` is truthy and the section follows the old image padded to 4096 |
| Data.StageImage | src/xhcart_core/pipeline/build_data.py:128-142 | with `image_crc32`, slot 6 records the whole image written without it, and the header is resealed when asked |
| Api.PackHeader | src/xhcart_core/api.py:16-34 | `pack_header` fails as loading fails and otherwise produces exactly `HeaderV2.pack` of the loaded meta, a 4096-byte header that carries a valid CRC and so passes `verify_header` |
| Api.PackHeaderIcon | src/xhcart_core/api.py:36-69 | the method runs the Pillow check, the load, the icon check and then ICON, MANF, ENTRY, DATA in that order, each on the previous stage's image, stopping at the first failure |
| Api.NoIconNoStage | src/xhcart_core/api.py:51-53 | without an icon configuration `pack_header_icon` fails before any stage runs, whatever the stages would see |
| Api.PackedCartKeepsIcon | src/xhcart_core/api.py:55-69 | the icon pixels survive the three later stages right after the header, so the written image is longer than a header and is not sealed as `verify_header` sees it |
| Api.KeepsPrefix | src/xhcart_core/api.py:59-69 | a stage that keeps everything after the header keeps the icon pixels |
| Api.VerifyHeader | src/xhcart_core/api.py:100-130 | the result is true exactly when the input is 4096 bytes long and its little-endian u32 at 4092 equals the CRC32 of a copy with bytes 4092..4095 zeroed |
| ImgPillow.Slice | src/xhcart_core/tools/img_pillow.py:17 | Python's clamping `s[i:j]` is the plain slice when it fits and never longer than `j - i` |
| ImgPillow.Doubled | src/xhcart_core/tools/img_pillow.py:16 | doubling every character doubles the length |
| ImgPillow.DoubledAt | src/xhcart_core/tools/img_pillow.py:15-16 | every character appears twice in a row: "abc" becomes "aabbcc" |
| ImgPillow.Channel | src/xhcart_core/tools/img_pillow.py:17 | a pair parses with `int(pair, 16)` or raises `ValueError` |
| ImgPillow.PairAt | src/xhcart_core/tools/img_pillow.py:17 | the digit pair at `i` is `h[i:i+2]` |
| ImgPillow.HexToRgb | src/xhcart_core/tools/img_pillow.py:4-17 | the colour is the values of the pairs at 0, 2 and 4 of the spelled-out string, and fails with `ValueError` exactly when one of them does not parse |
| ImgPillow.HashesStripped | src/xhcart_core/tools/img_pillow.py:14 | however many leading `#` there are, they are all stripped |
| ImgPillow.ShortForm | src/xhcart_core/tools/img_pillow.py:15-16 | a three-digit colour is read as the six-digit colour with each digit doubled |
| ImgPillow.HexPair | src/xhcart_core/tools/img_pillow.py:17 | two hexadecimal digits parse to their value, which lies in 0..255 |
| ImgPillow.PairChannel | src/xhcart_core/tools/img_pillow.py:17 | a pair of hexadecimal digits is a channel of that value in 0..255 |
| ImgPillow.PairsAt | src/xhcart_core/tools/img_pillow.py:17 | the pairs at 0, 2 and 4 are the first six characters two by two |
| ImgPillow.RgbOf | src/xhcart_core/tools/img_pillow.py:17 | three channels that parse make the colour of their values |
| ImgPillow.SpelledPairs | src/xhcart_core/tools/img_pillow.py:14-17 | a string spelled out to three hexadecimal pairs, with anything after them, yields their values, each in 0..255 |
| ImgPillow.SixDigits | src/xhcart_core/tools/img_pillow.py:14-17 | six hexadecimal digits after any `#` yield the value of each pair in 0..255; digits past the sixth are ignored |
| ImgPillow.ThreeDigits | src/xhcart_core/tools/img_pillow.py:14-17 | three hexadecimal digits yield 17 times each digit |
| ImgPillow.DoubledPairs | src/xhcart_core/tools/img_pillow.py:16 | "abc" doubled starts with the pairs "aa", "bb" and "cc" |
| ImgPillow.DoubledDigit | src/xhcart_core/tools/img_pillow.py:16-17 | a digit written twice is a pair worth 17 times the digit |
| ImgPillow.Bgra | src/xhcart_core/tools/img_pillow.py:93-95 | a pixel is written blue, green, red, alpha |
| ImgPillow.RowBytes | src/xhcart_core/tools/img_pillow.py:92-95 | the first `x` pixels of a row take `4 * x` bytes |
| ImgPillow.RawBytes | src/xhcart_core/tools/img_pillow.py:91-95 | the first `y` rows take `4 * y * width` bytes |
| ImgPillow.RowPixel | src/xhcart_core/tools/img_pillow.py:92-95 | pixel `x` of a row sits at bytes `4x..4x+3` of it |
| ImgPillow.RawPrefix | src/xhcart_core/tools/img_pillow.py:89-95 | the bytes of the first `m` rows begin the bytes of any `n >= m` rows |
| ImgPillow.RawRow | src/xhcart_core/tools/img_pillow.py:91-95 | row `y` sits at bytes `4 * y * width` onwards |
| ImgPillow.PixelAt | src/xhcart_core/tools/img_pillow.py:89-95 | pixel `(x, y)` occupies bytes `4*(y*w+x)..+3` in order B, G, R, A |
| ImgPillow.RawPacked | src/xhcart_core/tools/img_pillow.py:89-100 | the packing is `w*h*4` bytes with one BGRA quadruple per pixel, rows top to bottom and pixels left to right |
| ImgPillow.PackPixels | src/xhcart_core/tools/img_pillow.py:89-95 | the nested loops build exactly that packing |
| ImgPillow.PackRow | src/xhcart_core/tools/img_pillow.py:92-95 | the inner loop over one row appends, in order, pixel by pixel, the BGRA bytes of that row |
| ImgPillow.Resized | src/xhcart_core/tools/img_pillow.py:48-80 | `cover` takes the fitted picture, `contain` the picture composed on the parsed background (or the parse error), and any other mode raises `Invalid mode` |
| ImgPillow.ProcessImage | src/xhcart_core/tools/img_pillow.py:82-102 | a picture of the wrong size raises `Image resizing failed`; otherwise the result is the BGRA packing of the picture; within the modelled tail, the mode's error comes first |
| Config.RequireKeys | src/xhcart_core/config/load.py:40-43 | on a dict the key checks pass exactly when every key is present, and otherwise report the first missing key in order by name |
| Config.LoadPackJson | src/xhcart_core/config/load.py:27-118 | a non-dict, a wrong `format`, a `pack_version` other than 1 and a falsy `meta` each fail with their own error in that order; a loaded spec has all four required meta keys, header size and alignment 4096, and keeps the path |
| Config.LoadAccepts | src/xhcart_core/config/load.py:27-118 | loading succeeds exactly on a dict with format `XHGC_PACK`, pack version 1, a dict meta holding every required key, build and hash tables (empty when absent), and header size and alignment both 4096 |
| Config.BuildSizeChecks | src/xhcart_core/config/load.py:62-72 | after the meta checks, a header size other than 4096 is reported first and an alignment other than 4096 next |
| Config.MetaDefaults | src/xhcart_core/config/load.py:46-59 | absent `title_zh`, `publisher`, `min_fw`, `category`, `tags` and `id` default to "", "", "0.0.0", "app", [] and `None` |
| Config.HashDefaults | src/xhcart_core/config/load.py:84-91 | without a `hash` table the header CRC is on and the image, chunk and file CRCs are off |
| Config.IconsFallback | src/xhcart_core/config/load.py:93-101 | a falsy `icons` with a truthy `icon` becomes `{main_200: icon}`; a truthy `icons` is kept |
| Config.MissingMetaKey | src/xhcart_core/config/load.py:39-43 | the first missing key in the order title, version, cart_id, entry is reported by name |
| LexOrder.LexLeRefl | src/xhcart_core/pipeline/build_data.py:68-69 | string order is reflexive |
| LexOrder.LexLeTotal | src/xhcart_core/pipeline/build_data.py:68-69 | string order is total |
| LexOrder.LexLeTrans | src/xhcart_core/pipeline/build_data.py:68-69 | string order is transitive |
| LexOrder.LexLeAntisym | src/xhcart_core/pipeline/build_data.py:68-69 | string order is antisymmetric |
| LexOrder.Insert | src/xhcart_core/pipeline/build_data.py:68-69 | inserting into a sorted list keeps it sorted and adds exactly the one string |
| LexOrder.SortLex | src/xhcart_core/pipeline/build_data.py:68-69 | `files.sort()` yields an ascending permutation of its input |
| LexOrder.TailsAgree | src/xhcart_core/pipeline/build_data.py:68-69 | two permutations with the same head have permuted tails |
| LexOrder.HeadLeast | src/xhcart_core/pipeline/build_data.py:68-69 | the head of a sorted list is its least element |
| LexOrder.SortedUnique | src/xhcart_core/pipeline/build_data.py:68-69 | two sorted permutations of each other are equal, so the sorted result is unique |
| LegacyHeader.ReservedWords | format/header.py:106-121 | the nine reserved words lie side by side, 4 bytes each, from offset 388 up to the CRC at 424 |
| LegacyHeader.FixedString | format/header.py:37 | `'<ns'` stores exactly `n` bytes: the value cut to `n` or padded with NUL |
| LegacyHeader.IntArg | format/header.py:42 | `struct` takes an integer argument exactly from a number or a boolean |
| LegacyHeader.U32Value | format/header.py:42 | a `'<I'` field stores an integer in 0..2^32-1 and fails with `struct.error` otherwise |
| LegacyHeader.EncodeString | format/header.py:49-52 | a string field holds the UTF-8 bytes, fails when they exceed the field (a string may fill it completely), and a non-string raises `AttributeError` |
| LegacyHeader.EncodeCartId | format/header.py:80-86 | the id is stored exactly when it is a string that `int(s, 16)` parses to a value below 2^64; a non-string raises `AttributeError`, an unparsable one `ValueError`, a too-large one `struct.error` |
| LegacyHeader.Opening | format/header.py:36-53 | magic, pack version and title take the first 76 bytes |
| LegacyHeader.Head | format/header.py:36-69 | through the publisher the record takes 204 bytes |
| LegacyHeader.Check | format/header.py:49-100 | a check passes exactly when its value succeeds, and otherwise fails with its error |
| LegacyHeader.FirstFailure | format/header.py:49-100 | checks made in order pass exactly when all pass, and otherwise fail with one of them |
| LegacyHeader.MetaChecks | format/header.py:49-100 | seven checks on the meta dict, all of which pass exactly when the six strings are strings whose UTF-8 fits 64/64/64/32/128/16 bytes and `int(cart_id, 16)` reads the id as a u64 |
| LegacyHeader.FirstOfSeven | format/header.py:49-100 | seven checks in a row stop at the first that fails |
| LegacyHeader.FirstStep | format/header.py:49-100 | a check list stops at its head when the head fails and otherwise goes on with the rest |
| LegacyHeader.EncodeMeta | format/header.py:46-103 | the meta checks fail with the first failing check in the order title, title_zh, publisher, version, cart_id, entry, min_fw; on success each string is its UTF-8 encoding (with the defaults "" and "0.0.0") and the id its base-16 value |
| LegacyHeader.EncodeFields | format/header.py:41-103 | `pack` checks the pack version (1 when absent, `struct.error` when out of range), then needs the meta (default `{}`) to be a dict, then checks its values |
| LegacyHeader.PackFailures | format/header.py:41-103 | once the meta is a dict and the id parses, `pack` can only fail on a too-long string, a wrong type or a number out of range |
| LegacyHeader.MetaFailures | format/header.py:46-103 | the same for the meta checks alone |
| LegacyHeader.Front | format/header.py:36-103 | the values take the first 388 bytes |
| LegacyHeader.Layout | format/header.py:30-121 | the filled record is 4096 bytes |
| LegacyHeader.ZeroCrc | format/header.py:124-125 | zeroing the CRC field changes bytes 424..427 only |
| LegacyHeader.SealBytes | format/header.py:123-132 | sealing changes only the CRC field and leaves a record whose CRC field holds the CRC of the record with that field zeroed |
| LegacyHeader.PackSpec | format/header.py:19-145 | `pack` succeeds exactly when its checks do, fails with their error, and returns a sealed record |
| LegacyHeader.LayoutTail | format/header.py:105-125 | the filled record is zero from 388 to the end, so zeroing its CRC field changes nothing |
| LegacyHeader.Put | format/header.py:37-102 | one store puts its value right after what is written, leaving zeros after it |
| LegacyHeader.ZeroStore | format/header.py:118-125 | storing a zero `'<I'` where the record is zero changes nothing |
| LegacyHeader.StorePrefix | format/header.py:35-43 | the first two stores leave the magic bytes and then the pack version bytes, zeros after them |
| LegacyHeader.StoreOpening | format/header.py:36-53 | the first stores write the magic, the pack version and the title |
| LegacyHeader.StoreHead | format/header.py:36-69 | the next stores write title_zh and publisher |
| LegacyHeader.StoreFront | format/header.py:36-102 | all value stores write the layout |
| LegacyHeader.ClearReserved | format/header.py:118-125 | the reserved-word loop and the CRC zeroing leave the filled record as it is |
| LegacyHeader.Pack | format/header.py:19-145 | the method computes `pack`'s record or error |
| LegacyHeader.FrontValues | format/header.py:36-103 | each value sits at its offset: the magic cut to 8 bytes, the pack version, the padded strings and the id |
| LegacyHeader.SealedLayout | format/header.py:123-132 | sealing keeps the values and the zeros around the CRC |
| LegacyHeader.EncodedValues | format/header.py:41-103 | the stored values are the pack version (1 when absent), the UTF-8 of each string and the id `int(s, 16)` gives |
| LegacyHeader.SealedValues | format/header.py:36-132 | in the sealed record each value reads back at its offset |
| LegacyHeader.PackedNumbers | format/header.py:36-86 | a packed record starts with "XHGC_PAC", the pack version (1 when absent), and holds the id parsed in base 16 at 236 |
| LegacyHeader.PackedStrings | format/header.py:49-103 | each string of a packed record is its UTF-8 encoding padded with NUL to its field |
| LegacyHeader.PackedTail | format/header.py:105-132 | everything after the strings is zero but the CRC, which covers the whole record with its field zeroed |
| LegacyHeader.PackedDefaults | format/header.py:41-98 | absent keys store pack version 1, empty strings and "0.0.0" |
| LegacyLoad.RequiredKeysPass | config/load.py:50-53 | on a dict the required-key checks pass exactly when every key is present |
| LegacyLoad.CheckCartId | config/load.py:56-64 | the id check passes exactly on a string `int(s, 16)` parses, and reports an unparsable one with its text |
| LegacyLoad.CheckMeta | config/load.py:50-64 | the meta checks pass exactly when the meta is a dict holding every required key with a parsable id |
| LegacyLoad.CheckBuild | config/load.py:67-69 | the build checks pass exactly on a truthy build holding `output`, and report a missing build and a missing output in that order |
| LegacyLoad.ValidateRequiredFields | config/load.py:34-73 | validation passes exactly on a dict with a valid meta and build; a non-dict raises, a falsy meta is reported first, then the meta checks, then the build checks |
| LegacyLoad.CheckHeaderSize | config/load.py:27-30 | the header-size check passes exactly when `build.header_size` (4096 when absent) is 4096 |
| LegacyLoad.LoadPackSpec | config/load.py:5-32 | loading returns the parsed data unchanged, exactly when validation and the header-size check pass, failing with their errors in that order |
| LegacyLoad.MissingMetaKey | config/load.py:50-53 | the first missing key in the order title, publisher, version, entry, cart_id is reported by name |
| LegacyLoad.InvalidCartId | config/load.py:56-64 | with every key present an id `int(s, 16)` rejects is reported with its text |
| LegacyLoad.BuildChecks | config/load.py:67-73 | with a valid meta a missing build and a build without `output` are reported |
| LegacyLoad.LoadedCartIdParses | config/load.py:56-64 | what the legacy loader accepts, the legacy `pack` parses without `ValueError`, and can only fail on a too-long string, a wrong type or a number out of range |

## Left out

- File reads and writes are not modelled. This covers reading `pack.json` (with the `File not found` check and `json.load`), each stage's read of the image, the read-back in `_verify_header_crc`, the file reads of `verify_header` and `inspect_header`, and `atomic_write`. Every operation takes the parsed value or the bytes read, and returns the bytes it would write.
- JSON parse errors, and JSON numbers that are not integers, are not modelled. Numbers are integers, so a `header_size` of `4096.0` cannot be expressed.
- The file system is an input. This covers what `Path.glob` yields for a relative pattern, `is_file`, whether a pattern with a component matches in `Path.match`, `Path.exists`, `Path.relative_to` and `resolve_relative_path`, which appear as the `Files` of the DATA stage and the `Tools` of the ENTRY stage.
- Path.glob: apart from the refusal of an anchored pattern, its errors are not modelled. In some Python versions a pattern without components, such as `"."`, raises inside `pathlib`; the model takes what the glob yields as an input.
- The `st-luac` compiler, its location (`get_st_luac_path`) and the temporary file are inputs. The compiler is a function from the source path to the exit status, messages and output read back.
- Pillow is an input. `Image.open`, `convert`, `ImageOps.fit`, `thumbnail`, `paste` and the choice of resampling filter are taken as the resized picture.
- `Icon.LoadIcon` receives the output of `process_image` as an input function. `ImgPillow.ProcessImage` models the tail of `process_image` on its own, and the two are not connected. The steps before that tail are not modelled: the file open, `convert`, and `resample.lower()`, which raises `AttributeError` for a `resample` that is not a string before the mode is looked at.
- Text rasterisation (`tools/text_a8.py`) is not modelled. It depends on font metrics and renders through Pillow.
- The command-line front ends (`cli.py`, `main.py` and the top-level `api.py`) are not modelled.
- The JSON and `print` logging of every stage is not modelled, nor is the `verbose` table (the `fields` list) of the legacy `pack`.
- `inspect_header` is not modelled separately: it is a file read followed by `HeaderV2.inspect` on a placeholder configuration, and `HeaderV2.Inspect` models that call.
- Checksum.Crc32: a bitwise reference definition of the IEEE 802.3 CRC-32 (polynomial 0xEDB88320, reflected) stands in for `zlib.crc32`. No property depends on its internals.
- PyStr.Utf8: strings are sequences of Unicode scalar values, so a JSON string holding a lone surrogate, which Python's `encode('utf-8')` rejects, cannot be expressed.
- Entry.Bytecode: `str.lower()` on the suffix is modelled as ASCII lower-casing. That is the same as Python's `lower()` when the result is compared with `.lua`.
- HeaderV2.Inspect: the strings it returns are the bytes after stripping NUL, without `decode(errors='replace')`.
- LegacyHeader.Pack: all values are checked before the first store, where the source checks and stores field by field. The outcome is the same, because a failure discards the fresh buffer.
- Data.Excluded: a dict `exclude` is a map, so the order of its keys is lost. When the dict holds both a key without components (such as `""` or `"."`) and a key that matches, the model excludes the file. The source raises `ValueError` instead if the key without components comes first. `Data.TestExcluded` evaluates the dict case directly, without a loop.
- Data.Build: the index entries are computed alongside the DATA section but, as in the source, never written. No index record is modelled.
- The `PackSpec`, `MetaSpec`, `BuildSpec` and `HashSpec` dataclasses, whose constructors reject the loader's keyword arguments, are replaced by records carrying every field the loader passes.
