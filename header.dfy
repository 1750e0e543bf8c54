/** The version-2 cartridge header: a fixed 4096-byte record with the magic,
    the header version and size, the flags, the cartridge id, six
    NUL-padded strings, the address table and a CRC-32 over the whole
    record with its own field zeroed. */
module HeaderV2 {
  import opened Errors
  import opened Bytes
  import opened Checksum
  import opened PyStr
  import opened PyJson
  import opened Config
  import AddrTable

  const HEADER_SIZE: nat := 4096
  const HEADER_VERSION: nat := 2
  /** "XHGC_PAC" */
  const MAGIC: Bytes := [0x58, 0x48, 0x47, 0x43, 0x5F, 0x50, 0x41, 0x43]

  const OFFSET_HEADER_VERSION: nat := 8
  const OFFSET_HEADER_SIZE: nat := 12
  const OFFSET_FLAGS: nat := 16
  const OFFSET_CART_ID: nat := 20
  const OFFSET_TITLE: nat := 28
  const OFFSET_TITLE_ZH: nat := 92
  const OFFSET_PUBLISHER: nat := 156
  const OFFSET_VERSION: nat := 220
  const OFFSET_ENTRY: nat := 252
  const OFFSET_MIN_FW: nat := 380
  /** The first byte after the last string field. */
  const FIELDS_END: nat := 396
  const CRC_OFFSET: nat := 0x0FFC

  const LENGTH_TITLE: nat := 64
  const LENGTH_TITLE_ZH: nat := 64
  const LENGTH_PUBLISHER: nat := 64
  const LENGTH_VERSION: nat := 32
  const LENGTH_ENTRY: nat := 128
  const LENGTH_MIN_FW: nat := 16

  /** The encoded values `pack` stores. */
  datatype Fields = Fields(
    cartId: nat, title: Bytes, titleZh: Bytes, publisher: Bytes,
    version: Bytes, entry: Bytes, minFw: Bytes)

  /** Each string is one byte short of its field, so it is NUL terminated. */
  predicate Valid(f: Fields) {
    && f.cartId < U64_LIMIT
    && |f.title| < LENGTH_TITLE && |f.titleZh| < LENGTH_TITLE_ZH && |f.publisher| < LENGTH_PUBLISHER
    && |f.version| < LENGTH_VERSION && |f.entry| < LENGTH_ENTRY && |f.minFw| < LENGTH_MIN_FW
  }

  /** `meta.<name>.encode('utf-8')` with the length check of `pack`:
      `AttributeError` for a value that is no string, "meta.<name> exceeds
      cap-1 bytes" when the encoding does not leave room for a NUL. */
  function EncodeString(j: Json, name: string, cap: nat): (r: Result<Bytes>)
    requires cap > 0
    ensures !j.JStr? ==> r == Failure(AttributeError)
    ensures j.JStr? ==> r == if |Utf8(j.s)| <= cap - 1 then Success(Utf8(j.s)) else Failure(FieldTooLong(name, cap - 1))
  {
    match j
    case JStr(s) =>
      var b := Utf8(s);
      if |b| > cap - 1 then Failure(FieldTooLong(name, cap - 1)) else Success(b)
    case _ => Failure(AttributeError)
  }

  /** The cartridge id: `.startswith` needs a string, `int(s, 16)` must
      accept it ("Invalid cart_id") and `'<Q'` must hold it (`struct.error`). */
  function EncodeCartId(j: Json): (r: Result<nat>)
    ensures !j.JStr? ==> r == Failure(AttributeError)
    ensures j.JStr? && ParseHex(j.s).None? ==> r == Failure(InvalidCartId(j.s))
    ensures r.Success? <==> j.JStr? && ParseHex(j.s).Some? && 0 <= ParseHex(j.s).value < U64_LIMIT
    ensures r.Success? ==> r.value == ParseHex(j.s).value
    ensures j.JStr? && ParseHex(j.s).Some? && !(0 <= ParseHex(j.s).value < U64_LIMIT) ==> r == Failure(StructError)
  {
    match j
    case JStr(s) =>
      (match ParseHex(s)
       case None => Failure(InvalidCartId(s))
       case Some(v) => if 0 <= v < U64_LIMIT then Success(v) else Failure(StructError))
    case _ => Failure(AttributeError)
  }

  /** The checks of `pack` in the order it makes them. */
  function EncodeFields(meta: MetaSpec): (r: Result<Fields>)
    ensures r.Success? ==> Valid(r.value)
    ensures r.Success? <==>
      && EncodeCartId(meta.cartId).Success?
      && EncodeString(meta.title, "title", LENGTH_TITLE).Success?
      && EncodeString(meta.titleZh, "title_zh", LENGTH_TITLE_ZH).Success?
      && EncodeString(meta.publisher, "publisher", LENGTH_PUBLISHER).Success?
      && EncodeString(meta.version, "version", LENGTH_VERSION).Success?
      && EncodeString(meta.entry, "entry", LENGTH_ENTRY).Success?
      && EncodeString(meta.minFw, "min_fw", LENGTH_MIN_FW).Success?
    ensures EncodeCartId(meta.cartId).Failure? ==> r == Failure(EncodeCartId(meta.cartId).error)
    ensures EncodeCartId(meta.cartId).Success? && EncodeString(meta.title, "title", LENGTH_TITLE).Failure? ==>
      r == Failure(EncodeString(meta.title, "title", LENGTH_TITLE).error)
  {
    var cartId :- EncodeCartId(meta.cartId);
    var title :- EncodeString(meta.title, "title", LENGTH_TITLE);
    var titleZh :- EncodeString(meta.titleZh, "title_zh", LENGTH_TITLE_ZH);
    var publisher :- EncodeString(meta.publisher, "publisher", LENGTH_PUBLISHER);
    var version :- EncodeString(meta.version, "version", LENGTH_VERSION);
    var entry :- EncodeString(meta.entry, "entry", LENGTH_ENTRY);
    var minFw :- EncodeString(meta.minFw, "min_fw", LENGTH_MIN_FW);
    Success(Fields(cartId, title, titleZh, publisher, version, entry, minFw))
  }

  /** Byte `k` of the record `pack_without_crc` produces. */
  function LayoutByte(f: Fields, k: nat): byte
    requires Valid(f) && k < HEADER_SIZE
  {
    LimitsArePowers();
    if k < OFFSET_HEADER_VERSION then MAGIC[k]
    else if k < OFFSET_HEADER_SIZE then LE(HEADER_VERSION, 4)[k - OFFSET_HEADER_VERSION]
    else if k < OFFSET_FLAGS then LE(HEADER_SIZE, 4)[k - OFFSET_HEADER_SIZE]
    else if k < OFFSET_CART_ID then 0
    else if k < OFFSET_TITLE then LE(f.cartId, 8)[k - OFFSET_CART_ID]
    else if k < OFFSET_TITLE_ZH then PadTo(f.title, LENGTH_TITLE)[k - OFFSET_TITLE]
    else if k < OFFSET_PUBLISHER then PadTo(f.titleZh, LENGTH_TITLE_ZH)[k - OFFSET_TITLE_ZH]
    else if k < OFFSET_VERSION then PadTo(f.publisher, LENGTH_PUBLISHER)[k - OFFSET_PUBLISHER]
    else if k < OFFSET_ENTRY then PadTo(f.version, LENGTH_VERSION)[k - OFFSET_VERSION]
    else if k < OFFSET_MIN_FW then PadTo(f.entry, LENGTH_ENTRY)[k - OFFSET_ENTRY]
    else if k < FIELDS_END then PadTo(f.minFw, LENGTH_MIN_FW)[k - OFFSET_MIN_FW]
    else 0
  }

  /** The record `pack_without_crc` produces. */
  function Layout(f: Fields): (h: Bytes)
    requires Valid(f)
    ensures |h| == HEADER_SIZE
  {
    seq(HEADER_SIZE, k requires 0 <= k < HEADER_SIZE => LayoutByte(f, k))
  }

  /** The fixed values and the id at the front of the record. */
  lemma LayoutHead(f: Fields)
    requires Valid(f)
    ensures var h := Layout(f);
      && h[..8] == MAGIC
      && h[8..12] == LE(HEADER_VERSION, 4) && h[12..16] == LE(HEADER_SIZE, 4) && h[16..20] == LE(0, 4)
      && h[20..28] == LE(f.cartId, 8)
  {
    LimitsArePowers();
    var h := Layout(f);
    assert h[..8] == MAGIC;
    assert h[8..12] == LE(HEADER_VERSION, 4);
    assert h[12..16] == LE(HEADER_SIZE, 4);
    assert h[16..20] == LE(0, 4) by { LEZero(4); }
    assert h[20..28] == LE(f.cartId, 8);
  }

  /** The six strings, each padded with NUL to its field. */
  lemma LayoutStrings(f: Fields)
    requires Valid(f)
    ensures var h := Layout(f);
      && h[28..92] == PadTo(f.title, 64) && h[92..156] == PadTo(f.titleZh, 64)
      && h[156..220] == PadTo(f.publisher, 64) && h[220..252] == PadTo(f.version, 32)
      && h[252..380] == PadTo(f.entry, 128) && h[380..396] == PadTo(f.minFw, 16)
  {
    var h := Layout(f);
    assert h[28..92] == PadTo(f.title, 64);
    assert h[92..156] == PadTo(f.titleZh, 64);
    assert h[156..220] == PadTo(f.publisher, 64);
    assert h[220..252] == PadTo(f.version, 32);
    assert h[252..380] == PadTo(f.entry, 128);
    assert h[380..396] == PadTo(f.minFw, 16);
  }

  /** Everything after the strings (the gap, the address table, the CRC
      field) is zero. */
  lemma LayoutRest(f: Fields)
    requires Valid(f)
    ensures forall k :: FIELDS_END <= k < HEADER_SIZE ==> Layout(f)[k] == 0
  {
  }

  /** The CRC field of the layout is zero. */
  lemma LayoutCrcZero(f: Fields)
    requires Valid(f)
    ensures Layout(f)[CRC_OFFSET..] == Zeros(4)
  {
    LayoutRest(f);
  }

  /** Where each value sits in a record `h`: the fixed values, the id, the
      six strings padded with NUL to their fields, and zeros in the rest
      (the gap after the strings, the address table, the CRC field). */
  predicate Laid(h: Bytes, f: Fields)
    requires Valid(f)
  {
    LimitsArePowers();
    && |h| == HEADER_SIZE
    && h[..8] == MAGIC
    && h[8..12] == LE(HEADER_VERSION, 4) && h[12..16] == LE(HEADER_SIZE, 4) && h[16..20] == LE(0, 4)
    && h[20..28] == LE(f.cartId, 8)
    && h[28..92] == PadTo(f.title, 64) && h[92..156] == PadTo(f.titleZh, 64)
    && h[156..220] == PadTo(f.publisher, 64) && h[220..252] == PadTo(f.version, 32)
    && h[252..380] == PadTo(f.entry, 128) && h[380..396] == PadTo(f.minFw, 16)
    && forall k :: FIELDS_END <= k < HEADER_SIZE ==> h[k] == 0
  }

  /** The layout puts every value where `pack` stores it. */
  lemma LayoutFields(f: Fields)
    requires Valid(f)
    ensures Laid(Layout(f), f)
  {
    LayoutHead(f);
    LayoutStrings(f);
    LayoutRest(f);
  }

  /** The record with its CRC field zeroed, as the CRC is computed over it. */
  function ZeroCrc(h: Bytes): (z: Bytes)
    requires |h| == HEADER_SIZE
    ensures |z| == HEADER_SIZE && z[..CRC_OFFSET] == h[..CRC_OFFSET] && z[CRC_OFFSET..] == Zeros(4)
  {
    h[..CRC_OFFSET] + Zeros(4)
  }

  /** A record whose stored CRC matches its contents. */
  predicate IsSealed(h: Bytes) {
    |h| == HEADER_SIZE && FromLE(h[CRC_OFFSET..]) == Crc32(ZeroCrc(h))
  }

  /** `calculate_and_write_header_crc` on a record of the right length. */
  function SealBytes(h: Bytes): (s: Bytes)
    requires |h| == HEADER_SIZE
    ensures |s| == HEADER_SIZE && s[..CRC_OFFSET] == h[..CRC_OFFSET]
    ensures IsSealed(s)
  {
    var crc := Crc32(ZeroCrc(h));
    LimitsArePowers();
    var s := h[..CRC_OFFSET] + LE(crc, 4);
    assert ZeroCrc(s) == ZeroCrc(h);
    assert s[CRC_OFFSET..] == LE(crc, 4);
    FromLEOfLE(crc, 4);
    s
  }

  /** `calculate_and_write_header_crc`, which rejects any other length. */
  function Seal(h: Bytes): (r: Result<Bytes>)
    ensures r.Success? <==> |h| == HEADER_SIZE
    ensures r.Failure? ==> r.error == HeaderLengthMismatch
    ensures r.Success? ==> r.value == SealBytes(h)
  {
    if |h| != HEADER_SIZE then Failure(HeaderLengthMismatch) else Success(SealBytes(h))
  }

  /** Sealing changes nothing but the CRC field, and a sealed record is
      left as it is. */
  lemma SealFixesSealed(h: Bytes)
    requires IsSealed(h)
    ensures SealBytes(h) == h
  {
    LimitsArePowers();
    LEOfFromLE(h[CRC_OFFSET..]);
    assert h == h[..CRC_OFFSET] + h[CRC_OFFSET..];
  }

  /** Sealing twice is sealing once. */
  lemma SealIdempotent(h: Bytes)
    requires |h| == HEADER_SIZE
    ensures SealBytes(SealBytes(h)) == SealBytes(h)
  {
    SealFixesSealed(SealBytes(h));
  }

  /** A record whose CRC field is zero is sealed by storing the CRC of the
      record itself, which is what `pack` does. */
  lemma SealZeroField(h: Bytes)
    requires |h| == HEADER_SIZE && h[CRC_OFFSET..] == Zeros(4)
    ensures ZeroCrc(h) == h
  {
    assert h == h[..CRC_OFFSET] + h[CRC_OFFSET..];
  }

  /** `pack_without_crc()`. */
  function PackWithoutCrcSpec(meta: MetaSpec): (r: Result<Bytes>)
    ensures r.Success? <==> EncodeFields(meta).Success?
    ensures r.Failure? ==> r.error == EncodeFields(meta).error
    ensures r.Success? ==> r.value == Layout(EncodeFields(meta).value) && r.value[CRC_OFFSET..] == Zeros(4)
  {
    var f :- EncodeFields(meta);
    LayoutCrcZero(f);
    Success(Layout(f))
  }

  /** `pack()`. */
  function PackSpec(meta: MetaSpec): (r: Result<Bytes>)
    ensures r.Success? <==> EncodeFields(meta).Success?
    ensures r.Failure? ==> r.error == EncodeFields(meta).error
    ensures r.Success? ==> var plain := Layout(EncodeFields(meta).value);
      && IsSealed(r.value) && r.value[..CRC_OFFSET] == plain[..CRC_OFFSET]
      && r.value == SealBytes(plain)
  {
    var f :- EncodeFields(meta);
    Success(SealBytes(Layout(f)))
  }

  /** `pack` and `pack_without_crc` agree on bytes 0..4091. */
  lemma PackAgreesWithoutCrc(meta: MetaSpec)
    ensures PackSpec(meta).Success? <==> PackWithoutCrcSpec(meta).Success?
    ensures PackSpec(meta).Success? ==>
      && PackSpec(meta).value[..CRC_OFFSET] == PackWithoutCrcSpec(meta).value[..CRC_OFFSET]
      && PackSpec(meta).value == SealBytes(PackWithoutCrcSpec(meta).value)
  {
  }

  /** The stores of `pack` reach every byte the layout sets: what lies
      beyond the strings is zero already, in the address table and the CRC
      field in particular. */
  lemma LayoutClean(f: Fields)
    requires Valid(f)
    ensures Layout(f)[..FIELDS_END] + Zeros(HEADER_SIZE - FIELDS_END) == Layout(f)
    ensures AddrTable.Cleared(Layout(f)) == Layout(f)
    ensures Splice(Layout(f), CRC_OFFSET, Zeros(4)) == Layout(f)
  {
    LayoutFields(f);
    var L := Layout(f);
    assert L[..FIELDS_END] + Zeros(HEADER_SIZE - FIELDS_END) == L;
    assert AddrTable.Cleared(L) == L;
    assert Splice(L, CRC_OFFSET, Zeros(4)) == L;
  }

  /** The stores of the magic, version, size, flags and id. */
  method StoreHead(header: array<byte>, f: Fields, ghost L: Bytes)
    requires Valid(f) && L == Layout(f) && header.Length == HEADER_SIZE
    requires header[..] == Zeros(HEADER_SIZE)
    modifies header
    ensures header[..] == L[..OFFSET_TITLE] + Zeros(HEADER_SIZE - OFFSET_TITLE)
  {
    LayoutFields(f);
    LimitsArePowers();
    assert header[..] == L[..0] + Zeros(HEADER_SIZE);
    StoreNext(header, 0, MAGIC, L);
    StoreNext(header, OFFSET_HEADER_VERSION, LE(HEADER_VERSION, 4), L);
    StoreNext(header, OFFSET_HEADER_SIZE, LE(HEADER_SIZE, 4), L);
    StoreNext(header, OFFSET_FLAGS, LE(0, 4), L);
    StoreNext(header, OFFSET_CART_ID, LE(f.cartId, 8), L);
  }

  /** The stores of the six padded strings. */
  method StoreStrings(header: array<byte>, f: Fields, ghost L: Bytes)
    requires Valid(f) && L == Layout(f) && header.Length == HEADER_SIZE
    requires header[..] == L[..OFFSET_TITLE] + Zeros(HEADER_SIZE - OFFSET_TITLE)
    modifies header
    ensures header[..] == L[..FIELDS_END] + Zeros(HEADER_SIZE - FIELDS_END)
  {
    LayoutFields(f);
    StoreNext(header, OFFSET_TITLE, PadTo(f.title, LENGTH_TITLE), L);
    StoreNext(header, OFFSET_TITLE_ZH, PadTo(f.titleZh, LENGTH_TITLE_ZH), L);
    StoreNext(header, OFFSET_PUBLISHER, PadTo(f.publisher, LENGTH_PUBLISHER), L);
    StoreNext(header, OFFSET_VERSION, PadTo(f.version, LENGTH_VERSION), L);
    StoreNext(header, OFFSET_ENTRY, PadTo(f.entry, LENGTH_ENTRY), L);
    StoreNext(header, OFFSET_MIN_FW, PadTo(f.minFw, LENGTH_MIN_FW), L);
  }

  /** One store of `pack`: the record is finished up to `at`, zero after. */
  method StoreNext(header: array<byte>, at: nat, v: Bytes, ghost L: Bytes)
    requires header.Length == |L| && at + |v| <= |L| && L[at..at + |v|] == v
    requires header[..] == L[..at] + Zeros(|L| - at)
    modifies header
    ensures header[..] == L[..at + |v|] + Zeros(|L| - at - |v|)
  {
    StoreBytes(header, at, v);
    assert forall k :: 0 <= k < at + |v| ==> header[k] == L[k];
  }

  /** Every store of a field into a zeroed record gives the layout. */
  method StoreFields(header: array<byte>, f: Fields)
    requires Valid(f) && header.Length == HEADER_SIZE && header[..] == Zeros(HEADER_SIZE)
    modifies header
    ensures header[..] == Layout(f)
  {
    ghost var L := Layout(f);
    StoreHead(header, f, L);
    StoreStrings(header, f, L);
    LayoutClean(f);
  }

  /** The common body of `pack` and `pack_without_crc`: a fresh zeroed
      `bytearray(4096)` filled field by field, the address table cleared and
      the CRC field zeroed. */
  method Fill(meta: MetaSpec) returns (o: Outcome, header: array<byte>)
    ensures fresh(header) && header.Length == HEADER_SIZE
    ensures o.Pass? <==> EncodeFields(meta).Success?
    ensures o.Fail? ==> o.error == EncodeFields(meta).error
    ensures o.Pass? ==> header[..] == Layout(EncodeFields(meta).value)
  {
    header := NewZeros(HEADER_SIZE);
    var encoded := EncodeFields(meta);
    if encoded.Failure? {
      return Fail(encoded.error), header;
    }
    var f := encoded.value;
    StoreFields(header, f);
    LayoutClean(f);
    var cleared := AddrTable.ClearAllSlots(header);
    assert cleared.Pass?;
    LEZero(4);
    StoreBytes(header, CRC_OFFSET, LE(0, 4));
    o := Pass;
  }

  /** Storing a CRC in the last four bytes of a record. */
  lemma StoreCrc(h: Bytes, crc: nat)
    requires |h| == HEADER_SIZE && crc < U32_LIMIT
    ensures PackInto(h, CRC_OFFSET, crc, 4) == Success(h[..CRC_OFFSET] + LE(crc, 4))
  {
    LimitsArePowers();
    var r := PackInto(h, CRC_OFFSET, crc, 4).value;
    assert r[CRC_OFFSET..] == r[CRC_OFFSET..CRC_OFFSET + 4] == LE(crc, 4);
    assert r[..CRC_OFFSET] == h[..CRC_OFFSET];
    assert r == r[..CRC_OFFSET] + r[CRC_OFFSET..];
  }

  /** `pack()` as the imperative code does it: fill, compute the CRC of the
      buffer (whose CRC field is zero) and store it in place. */
  method Pack(meta: MetaSpec) returns (r: Result<Bytes>)
    ensures r == PackSpec(meta)
  {
    var o, header := Fill(meta);
    if o.Fail? {
      return Failure(o.error);
    }
    ghost var L := header[..];
    var crc := Crc32(header[..]);
    StoreCrc(L, crc);
    var stored := StoreLE(header, CRC_OFFSET, crc, 4);
    PackSealed(meta, L, crc, header[..]);
    r := Success(header[..]);
  }

  /** The filled record with its own CRC stored is the sealed record. */
  lemma PackSealed(meta: MetaSpec, plain: Bytes, crc: nat, sealed: Bytes)
    requires EncodeFields(meta).Success? && plain == Layout(EncodeFields(meta).value)
    requires crc == Crc32(plain)
    requires sealed == plain[..CRC_OFFSET] + LE(crc, 4)
    ensures Success(sealed) == PackSpec(meta)
  {
    LayoutCrcZero(EncodeFields(meta).value);
    SealZeroField(plain);
  }

  /** `pack_without_crc()`. */
  method PackWithoutCrc(meta: MetaSpec) returns (r: Result<Bytes>)
    ensures r == PackWithoutCrcSpec(meta)
  {
    var o, header := Fill(meta);
    if o.Fail? {
      return Failure(o.error);
    }
    r := Success(header[..]);
  }

  /** `calculate_and_write_header_crc(header)` on the caller's `bytearray`:
      the CRC of a zeroed copy stored at 4092..4095, nothing else changed. */
  method Reseal(header: array<byte>) returns (o: Outcome)
    modifies header
    ensures o.Pass? <==> header.Length == HEADER_SIZE
    ensures o.Fail? ==> o.error == HeaderLengthMismatch && header[..] == old(header[..])
    ensures o.Pass? ==> header[..] == SealBytes(old(header[..]))
  {
    if header.Length != HEADER_SIZE {
      return Fail(HeaderLengthMismatch);
    }
    ghost var before := header[..];
    var copy := header[..CRC_OFFSET] + Zeros(4);
    var crc := Crc32(copy);
    StoreCrc(before, crc);
    var stored := StoreLE(header, CRC_OFFSET, crc, 4);
    o := Pass;
  }

  // ---- inspect ----

  datatype SlotInfo = SlotInfo(name: string, offset: nat, dataOffset: nat, size: nat, crc32: nat)

  datatype HeaderInfo = HeaderInfo(
    magic: Bytes, headerVersion: nat, headerSize: nat, flags: nat, cartId: string,
    title: Bytes, titleZh: Bytes, publisher: Bytes, version: Bytes, entry: Bytes, minFw: Bytes,
    crc32: nat, addrTable: seq<SlotInfo>, addrTableRange: string, crc32Range: string)

  /** The names `inspect` gives the slots: six named ones, then `SLOT<i>`. */
  const SLOT_NAMES: seq<string> := [
    "ICON", "THMB", "MANF", "ENTRY", "INDEX", "DATA",
    "SLOT6", "SLOT7", "SLOT8", "SLOT9", "SLOT10", "SLOT11", "SLOT12", "SLOT13", "SLOT14"]

  function SlotName(i: nat): string
    requires i < AddrTable.SLOT_COUNT
  {
    SLOT_NAMES[i]
  }

  /** The unnamed slots are called "SLOT" followed by their index in decimal. */
  lemma NumberedSlotNames()
    ensures |SLOT_NAMES| == AddrTable.SLOT_COUNT
    ensures forall i :: 6 <= i < AddrTable.SLOT_COUNT ==> SlotName(i) == "SLOT" + Decimal(i)
  {
    forall i | 6 <= i < AddrTable.SLOT_COUNT
      ensures SlotName(i) == "SLOT" + Decimal(i)
    {
      if i < 10 {
        OneDigitName(i);
      } else {
        TwoDigitName(i);
      }
    }
  }

  lemma OneDigitName(i: nat)
    requires 6 <= i < 10
    ensures SlotName(i) == "SLOT" + Decimal(i)
  {
    assert Decimal(i) == [DigitChar(i)];
    assert "0123456789abcdef"[6..10] == "6789";
  }

  lemma TwoDigitName(i: nat)
    requires 10 <= i < AddrTable.SLOT_COUNT
    ensures SlotName(i) == "SLOT" + Decimal(i)
  {
    TwoDigits(i);
    assert "0123456789abcdef"[0..5] == "01234";
  }

  lemma TwoDigits(i: nat)
    requires 10 <= i < 20
    ensures Decimal(i) == ['1', DigitChar(i - 10)]
  {
    assert Decimal(i) == Decimal(1) + [DigitChar(i - 10)];
    assert Decimal(1) == "1";
  }

  /** Slot `i` as `inspect` lists it. */
  function SlotEntry(h: Bytes, i: nat): SlotInfo
    requires |h| == HEADER_SIZE && i < AddrTable.SLOT_COUNT
  {
    var s := AddrTable.ReadSlot(h, i);
    SlotInfo(SlotName(i), AddrTable.SlotOffset(i), s.offset, s.size, s.crc)
  }

  /** The address table as `inspect` lists it. */
  function SlotTable(h: Bytes): (t: seq<SlotInfo>)
    requires |h| == HEADER_SIZE
    ensures |t| == AddrTable.SLOT_COUNT
  {
    seq(AddrTable.SLOT_COUNT, i requires 0 <= i < AddrTable.SLOT_COUNT => SlotEntry(h, i))
  }

  /** A string field read back: its bytes up to the first trailing NUL
      (`.decode` is not modelled). */
  function StringField(h: Bytes, at: nat, len: nat): Bytes
    requires at + len <= |h|
  {
    RStripNul(h[at..at + len])
  }

  /** `inspect(header_data)`. */
  function InspectSpec(h: Bytes): (r: Result<HeaderInfo>)
    ensures r.Success? <==> |h| == HEADER_SIZE
    ensures r.Failure? ==> r.error == InvalidHeaderSize(|h|)
    ensures r.Success? ==> |r.value.addrTable| == AddrTable.SLOT_COUNT
  {
    if |h| != HEADER_SIZE then Failure(InvalidHeaderSize(|h|))
    else
      Success(HeaderInfo(
        magic := RStripNul(h[..8]),
        headerVersion := FromLE(h[8..12]),
        headerSize := FromLE(h[12..16]),
        flags := FromLE(h[16..20]),
        cartId := HexLiteral(FromLE(h[20..28])),
        title := StringField(h, OFFSET_TITLE, LENGTH_TITLE),
        titleZh := StringField(h, OFFSET_TITLE_ZH, LENGTH_TITLE_ZH),
        publisher := StringField(h, OFFSET_PUBLISHER, LENGTH_PUBLISHER),
        version := StringField(h, OFFSET_VERSION, LENGTH_VERSION),
        entry := StringField(h, OFFSET_ENTRY, LENGTH_ENTRY),
        minFw := StringField(h, OFFSET_MIN_FW, LENGTH_MIN_FW),
        crc32 := FromLE(h[CRC_OFFSET..]),
        addrTable := SlotTable(h),
        addrTableRange := "0x0F00..0x0FFB",
        crc32Range := "0x0FFC..0x0FFF"))
  }

  /** The loop of `inspect` that lists the slots one by one. */
  method ReadTable(h: Bytes) returns (table: seq<SlotInfo>)
    requires |h| == HEADER_SIZE
    ensures table == SlotTable(h)
  {
    table := [];
    for i := 0 to AddrTable.SLOT_COUNT
      invariant |table| == i
      invariant forall j :: 0 <= j < i ==> table[j] == SlotEntry(h, j)
    {
      var slotOff := AddrTable.SlotOffset(i);
      var offset := FromLE(h[slotOff..slotOff + 8]);
      var size := FromLE(h[slotOff + 8..slotOff + 12]);
      var crc := FromLE(h[slotOff + 12..slotOff + 16]);
      var entry := SlotInfo(SlotName(i), slotOff, offset, size, crc);
      assert entry == SlotEntry(h, i);
      table := table + [entry];
    }
  }

  /** `inspect(header_data)`. */
  method Inspect(h: Bytes) returns (r: Result<HeaderInfo>)
    ensures r == InspectSpec(h)
  {
    if |h| != HEADER_SIZE {
      return Failure(InvalidHeaderSize(|h|));
    }
    var table := ReadTable(h);
    r := Success(HeaderInfo(
      magic := RStripNul(h[..8]),
      headerVersion := FromLE(h[8..12]),
      headerSize := FromLE(h[12..16]),
      flags := FromLE(h[16..20]),
      cartId := HexLiteral(FromLE(h[20..28])),
      title := StringField(h, OFFSET_TITLE, LENGTH_TITLE),
      titleZh := StringField(h, OFFSET_TITLE_ZH, LENGTH_TITLE_ZH),
      publisher := StringField(h, OFFSET_PUBLISHER, LENGTH_PUBLISHER),
      version := StringField(h, OFFSET_VERSION, LENGTH_VERSION),
      entry := StringField(h, OFFSET_ENTRY, LENGTH_ENTRY),
      minFw := StringField(h, OFFSET_MIN_FW, LENGTH_MIN_FW),
      crc32 := FromLE(h[CRC_OFFSET..]),
      addrTable := table,
      addrTableRange := "0x0F00..0x0FFB",
      crc32Range := "0x0FFC..0x0FFF"));
  }

  /** Records that agree on a prefix agree on every slice of it. */
  lemma SamePrefix(s: Bytes, t: Bytes, n: nat, i: nat, j: nat)
    requires n <= |s| && n <= |t| && s[..n] == t[..n] && i <= j <= n
    ensures s[i..j] == t[i..j]
  {
    assert s[i..j] == s[..n][i..j];
    assert t[i..j] == t[..n][i..j];
  }

  /** One string field of a sealed layout read back. */
  lemma StringReadBack(h: Bytes, L: Bytes, at: nat, len: nat, b: Bytes)
    requires |h| == |L| == HEADER_SIZE && h[..CRC_OFFSET] == L[..CRC_OFFSET] && at + len <= FIELDS_END
    requires L[at..at + len] == PadTo(b, len)
    requires b == [] || b[|b| - 1] != 0
    ensures StringField(h, at, len) == b
  {
    SamePrefix(h, L, CRC_OFFSET, at, at + len);
    RStripPad(b, len);
  }

  /** The encoding of a string that does not end in NUL does not end in a
      zero byte. */
  lemma NoTrailingNul(s: string)
    requires s == [] || s[|s| - 1] != '\0'
    ensures Utf8(s) == [] || Utf8(s)[|Utf8(s)| - 1] != 0
  {
    if s != [] {
      Utf8LastByte(s);
    }
  }

  /** The meta strings `pack` can read back unchanged. */
  predicate Readable(j: Json) {
    j.JStr? && (j.s == [] || j.s[|j.s| - 1] != '\0')
  }

  /** The values `pack` encodes: the id `int(cart_id, 16)` and the UTF-8 of
      each string. */
  lemma EncodedValues(meta: MetaSpec)
    requires EncodeFields(meta).Success?
    ensures var f := EncodeFields(meta).value;
      && meta.cartId.JStr? && ParseHex(meta.cartId.s) == Some(f.cartId as int)
      && meta.title.JStr? && f.title == Utf8(meta.title.s)
      && meta.titleZh.JStr? && f.titleZh == Utf8(meta.titleZh.s)
      && meta.publisher.JStr? && f.publisher == Utf8(meta.publisher.s)
      && meta.version.JStr? && f.version == Utf8(meta.version.s)
      && meta.entry.JStr? && f.entry == Utf8(meta.entry.s)
      && meta.minFw.JStr? && f.minFw == Utf8(meta.minFw.s)
  {
    var f := EncodeFields(meta).value;
    assert f.cartId == EncodeCartId(meta.cartId).value;
    assert f.title == EncodeString(meta.title, "title", LENGTH_TITLE).value;
    assert f.titleZh == EncodeString(meta.titleZh, "title_zh", LENGTH_TITLE_ZH).value;
    assert f.publisher == EncodeString(meta.publisher, "publisher", LENGTH_PUBLISHER).value;
    assert f.version == EncodeString(meta.version, "version", LENGTH_VERSION).value;
    assert f.entry == EncodeString(meta.entry, "entry", LENGTH_ENTRY).value;
    assert f.minFw == EncodeString(meta.minFw, "min_fw", LENGTH_MIN_FW).value;
  }

  /** The fixed values and the id of a record that agrees with a layout
      before the CRC field. */
  lemma ReadFixed(h: Bytes, L: Bytes, f: Fields)
    requires Valid(f) && Laid(L, f) && |h| == HEADER_SIZE && h[..CRC_OFFSET] == L[..CRC_OFFSET]
    ensures RStripNul(h[..8]) == MAGIC && FromLE(h[8..12]) == HEADER_VERSION
    ensures FromLE(h[12..16]) == HEADER_SIZE && FromLE(h[16..20]) == 0 && FromLE(h[20..28]) == f.cartId
  {
    LimitsArePowers();
    SamePrefix(h, L, CRC_OFFSET, 0, 8);
    assert RStripNul(MAGIC) == MAGIC;
    SamePrefix(h, L, CRC_OFFSET, 8, 12);
    SamePrefix(h, L, CRC_OFFSET, 12, 16);
    SamePrefix(h, L, CRC_OFFSET, 16, 20);
    SamePrefix(h, L, CRC_OFFSET, 20, 28);
    FromLEOfLE(HEADER_VERSION, 4);
    FromLEOfLE(HEADER_SIZE, 4);
    FromLEOfLE(0, 4);
    FromLEOfLE(f.cartId, 8);
  }

  /** A byte string with no trailing zero byte. */
  predicate NoTrailingZero(b: Bytes) {
    b == [] || b[|b| - 1] != 0
  }

  /** The six strings of a record that agrees with a layout before the CRC
      field. */
  lemma ReadStrings(h: Bytes, L: Bytes, f: Fields)
    requires Valid(f) && Laid(L, f) && |h| == HEADER_SIZE && h[..CRC_OFFSET] == L[..CRC_OFFSET]
    requires NoTrailingZero(f.title) && NoTrailingZero(f.titleZh) && NoTrailingZero(f.publisher)
    requires NoTrailingZero(f.version) && NoTrailingZero(f.entry) && NoTrailingZero(f.minFw)
    ensures StringField(h, OFFSET_TITLE, LENGTH_TITLE) == f.title
    ensures StringField(h, OFFSET_TITLE_ZH, LENGTH_TITLE_ZH) == f.titleZh
    ensures StringField(h, OFFSET_PUBLISHER, LENGTH_PUBLISHER) == f.publisher
    ensures StringField(h, OFFSET_VERSION, LENGTH_VERSION) == f.version
    ensures StringField(h, OFFSET_ENTRY, LENGTH_ENTRY) == f.entry
    ensures StringField(h, OFFSET_MIN_FW, LENGTH_MIN_FW) == f.minFw
  {
    assert StringField(h, OFFSET_TITLE, LENGTH_TITLE) == f.title by { StringReadBack(h, L, OFFSET_TITLE, LENGTH_TITLE, f.title); }
    assert StringField(h, OFFSET_TITLE_ZH, LENGTH_TITLE_ZH) == f.titleZh by { StringReadBack(h, L, OFFSET_TITLE_ZH, LENGTH_TITLE_ZH, f.titleZh); }
    assert StringField(h, OFFSET_PUBLISHER, LENGTH_PUBLISHER) == f.publisher by { StringReadBack(h, L, OFFSET_PUBLISHER, LENGTH_PUBLISHER, f.publisher); }
    assert StringField(h, OFFSET_VERSION, LENGTH_VERSION) == f.version by { StringReadBack(h, L, OFFSET_VERSION, LENGTH_VERSION, f.version); }
    assert StringField(h, OFFSET_ENTRY, LENGTH_ENTRY) == f.entry by { StringReadBack(h, L, OFFSET_ENTRY, LENGTH_ENTRY, f.entry); }
    assert StringField(h, OFFSET_MIN_FW, LENGTH_MIN_FW) == f.minFw by { StringReadBack(h, L, OFFSET_MIN_FW, LENGTH_MIN_FW, f.minFw); }
  }

  /** One slot of a record that agrees with a layout before the CRC field
      reads as empty. */
  lemma SlotReadBack(h: Bytes, L: Bytes, i: nat)
    requires |h| == |L| == HEADER_SIZE && h[..CRC_OFFSET] == L[..CRC_OFFSET] && i < AddrTable.SLOT_COUNT
    requires forall k :: FIELDS_END <= k < HEADER_SIZE ==> L[k] == 0
    ensures AddrTable.ReadSlot(h, i) == AddrTable.Slot(0, 0, 0)
  {
    var off := AddrTable.SlotOffset(i);
    SamePrefix(h, L, CRC_OFFSET, off, off + 8);
    SamePrefix(h, L, CRC_OFFSET, off + 8, off + 12);
    SamePrefix(h, L, CRC_OFFSET, off + 12, off + 16);
    LEZero(8);
    LEZero(4);
    LimitsArePowers();
    FromLEOfLE(0, 8);
    FromLEOfLE(0, 4);
    assert h[off..off + 8] == Zeros(8);
    assert h[off + 8..off + 12] == Zeros(4);
    assert h[off + 12..off + 16] == Zeros(4);
  }

  /** The encoding of a readable string does not end in a zero byte. */
  lemma ReadableEncoding(j: Json, b: Bytes)
    requires Readable(j) && b == Utf8(j.s)
    ensures NoTrailingZero(b)
  {
    NoTrailingNul(j.s);
  }

  /** The encodings of strings that do not end in NUL do not end in a zero
      byte. */
  lemma EncodedReadable(meta: MetaSpec)
    requires EncodeFields(meta).Success?
    requires Readable(meta.title) && Readable(meta.titleZh) && Readable(meta.publisher)
    requires Readable(meta.version) && Readable(meta.entry) && Readable(meta.minFw)
    ensures var f := EncodeFields(meta).value;
      && NoTrailingZero(f.title) && NoTrailingZero(f.titleZh) && NoTrailingZero(f.publisher)
      && NoTrailingZero(f.version) && NoTrailingZero(f.entry) && NoTrailingZero(f.minFw)
  {
    var f := EncodeFields(meta).value;
    EncodedValues(meta);
    ReadableEncoding(meta.title, f.title);
    ReadableEncoding(meta.titleZh, f.titleZh);
    ReadableEncoding(meta.publisher, f.publisher);
    ReadableEncoding(meta.version, f.version);
    ReadableEncoding(meta.entry, f.entry);
    ReadableEncoding(meta.minFw, f.minFw);
  }

  /** The address table of a freshly packed header, as `inspect` lists it. */
  function EmptyTable(): (t: seq<SlotInfo>)
    ensures |t| == AddrTable.SLOT_COUNT
  {
    seq(AddrTable.SLOT_COUNT, i requires 0 <= i < AddrTable.SLOT_COUNT =>
      SlotInfo(SlotName(i), AddrTable.SlotOffset(i), 0, 0, 0))
  }

  /** What `inspect` reports for a record holding `f`. */
  function Expected(f: Fields): HeaderInfo
    requires Valid(f)
  {
    HeaderInfo(MAGIC, HEADER_VERSION, HEADER_SIZE, 0, HexLiteral(f.cartId),
      f.title, f.titleZh, f.publisher, f.version, f.entry, f.minFw,
      Crc32(Layout(f)), EmptyTable(), "0x0F00..0x0FFB", "0x0FFC..0x0FFF")
  }

  /** The CRC field of a sealed layout holds the CRC of the layout. */
  lemma SealedCrc(f: Fields)
    requires Valid(f)
    ensures FromLE(SealBytes(Layout(f))[CRC_OFFSET..]) == Crc32(Layout(f))
  {
    var L := Layout(f);
    LayoutRest(f);
    SealZeroField(L);
    LimitsArePowers();
    FromLEOfLE(Crc32(L), 4);
  }

  /** The address table of a sealed layout lists every slot as empty. */
  lemma SealedTable(f: Fields)
    requires Valid(f)
    ensures SlotTable(SealBytes(Layout(f))) == EmptyTable()
  {
    var L := Layout(f);
    var h := SealBytes(L);
    LayoutRest(f);
    var table := SlotTable(h);
    forall i | 0 <= i < AddrTable.SLOT_COUNT
      ensures table[i] == EmptyTable()[i]
    {
      SlotReadBack(h, L, i);
      assert table[i] == SlotEntry(h, i);
    }
  }

  /** `inspect` of a sealed layout reports exactly the values laid out, when
      no string ends in a zero byte. */
  lemma InspectSealed(f: Fields)
    requires Valid(f)
    requires NoTrailingZero(f.title) && NoTrailingZero(f.titleZh) && NoTrailingZero(f.publisher)
    requires NoTrailingZero(f.version) && NoTrailingZero(f.entry) && NoTrailingZero(f.minFw)
    ensures InspectSpec(SealBytes(Layout(f))) == Success(Expected(f))
  {
    var L := Layout(f);
    var h := SealBytes(L);
    LayoutFields(f);
    ReadFixed(h, L, f);
    ReadStrings(h, L, f);
    SealedCrc(f);
    SealedTable(f);
  }

  /** What `inspect` reads from a header `pack` produced: the values `pack`
      encoded, whose id parses back to the packed one and whose strings are
      the UTF-8 of the meta strings (when they do not end in NUL). */
  lemma InspectPacked(meta: MetaSpec)
    requires PackSpec(meta).Success?
    requires Readable(meta.title) && Readable(meta.titleZh) && Readable(meta.publisher)
    requires Readable(meta.version) && Readable(meta.entry) && Readable(meta.minFw)
    ensures InspectSpec(PackSpec(meta).value) == Success(Expected(EncodeFields(meta).value))
    ensures var info := InspectSpec(PackSpec(meta).value).value;
      && ParseHex(info.cartId) == ParseHex(meta.cartId.s)
      && info.title == Utf8(meta.title.s) && info.titleZh == Utf8(meta.titleZh.s)
      && info.publisher == Utf8(meta.publisher.s) && info.version == Utf8(meta.version.s)
      && info.entry == Utf8(meta.entry.s) && info.minFw == Utf8(meta.minFw.s)
  {
    var f := EncodeFields(meta).value;
    EncodedReadable(meta);
    InspectSealed(f);
    EncodedValues(meta);
    ParseHexLiteral(f.cartId);
  }
}
