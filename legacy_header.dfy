/** The legacy header of `format/header.py`: a 4096-byte record holding the
    truncated magic, the pack version, six NUL-padded strings that may fill
    their fields completely, the cartridge id, nine reserved words and a
    CRC-32 at offset 424 over the whole record with that field zeroed. The
    `Header` object only keeps the `pack_spec` dict it was built with, so it
    is the `packSpec` argument here. */
module LegacyHeader {
  import opened Errors
  import opened Bytes
  import opened Checksum
  import opened PyStr
  import opened PyJson

  const HEADER_SIZE: nat := 4096
  /** `b'XHGC_PACK'`: nine bytes, of which the `'<8s'` format keeps eight. */
  const MAGIC_LITERAL: Bytes := [0x58, 0x48, 0x47, 0x43, 0x5F, 0x50, 0x41, 0x43, 0x4B]
  const MAGIC_LENGTH: nat := 8

  const OFFSET_PACK_VERSION: nat := 8
  const OFFSET_TITLE: nat := 12
  const OFFSET_TITLE_ZH: nat := 76
  const OFFSET_PUBLISHER: nat := 140
  const OFFSET_VERSION: nat := 204
  const OFFSET_CART_ID: nat := 236
  const OFFSET_ENTRY: nat := 244
  const OFFSET_MIN_FW: nat := 372
  /** The first reserved word, just after the last string. */
  const RESERVED_START: nat := 388
  const CRC_OFFSET: nat := 424

  const LENGTH_TITLE: nat := 64
  const LENGTH_TITLE_ZH: nat := 64
  const LENGTH_PUBLISHER: nat := 64
  const LENGTH_VERSION: nat := 32
  const LENGTH_ENTRY: nat := 128
  const LENGTH_MIN_FW: nat := 16

  /** The reserved words: name, offset and size. */
  const RESERVED: seq<(string, nat, nat)> := [
    ("icon_offset", 388, 4), ("icon_size", 392, 4), ("manifest_offset", 396, 4),
    ("manifest_size", 400, 4), ("entry_offset", 404, 4), ("entry_size", 408, 4),
    ("index_offset", 412, 4), ("index_size", 416, 4), ("image_size", 420, 4)]

  /** The reserved words lie side by side from offset 388 up to the CRC. */
  lemma ReservedWords()
    ensures forall i :: 0 <= i < |RESERVED| ==>
      RESERVED[i].1 == RESERVED_START + 4 * i && RESERVED[i].2 == 4 && RESERVED[i].1 + 4 <= CRC_OFFSET
  {
  }

  /** `struct.pack('<{n}s', v)`: `v` cut to `n` bytes or padded with NUL. */
  function FixedString(v: Bytes, n: nat): (r: Bytes)
    ensures |r| == n
    ensures |v| >= n ==> r == v[..n]
    ensures |v| <= n ==> r == PadTo(v, n)
  {
    if |v| >= n then v[..n] else PadTo(v, n)
  }

  /** The integer `struct` takes from a JSON value (`bool` is an `int` in
      Python); `None` for anything else, which `struct` rejects. */
  function IntArg(j: Json): (r: Option<int>)
    ensures r.Some? <==> j.JNum? || j.JBool?
    ensures j.JNum? ==> r == Some(j.n)
  {
    match j
    case JNum(n) => Some(n)
    case JBool(b) => Some(if b then 1 else 0)
    case _ => None
  }

  /** The value a `'<I'` field stores, or `struct.error`. */
  function U32Value(j: Json): (r: Result<nat>)
    ensures r.Success? <==> IntArg(j).Some? && 0 <= IntArg(j).value < U32_LIMIT
    ensures r.Success? ==> r.value == IntArg(j).value
    ensures r.Failure? ==> r.error == StructError
  {
    match IntArg(j)
    case Some(n) => if 0 <= n < U32_LIMIT then Success(n) else Failure(StructError)
    case None => Failure(StructError)
  }

  /** `meta.get(name, default).encode('utf-8')` with the length check of
      `pack`: a string may use its whole field. */
  function EncodeString(j: Json, name: string, cap: nat): (r: Result<Bytes>)
    ensures !j.JStr? ==> r == Failure(AttributeError)
    ensures j.JStr? ==> (r.Success? <==> |Utf8(j.s)| <= cap)
    ensures j.JStr? && r.Success? ==> r.value == Utf8(j.s)
    ensures j.JStr? && r.Failure? ==> r.error == FieldTooLong(name, cap)
  {
    match j
    case JStr(s) =>
      var b := Utf8(s);
      if |b| > cap then Failure(FieldTooLong(name, cap)) else Success(b)
    case _ => Failure(AttributeError)
  }

  /** The cartridge id: `.startswith` needs a string, `int(s, 16)` must
      parse it (`ValueError`), and `'<Q'` must hold it (`struct.error`). */
  function EncodeCartId(j: Json): (r: Result<nat>)
    ensures !j.JStr? ==> r == Failure(AttributeError)
    ensures j.JStr? && ParseHex(j.s).None? ==> r == Failure(InvalidLiteral)
    ensures r.Success? <==> j.JStr? && ParseHex(j.s).Some? && 0 <= ParseHex(j.s).value < U64_LIMIT
    ensures r.Success? ==> r.value == ParseHex(j.s).value
    ensures j.JStr? && ParseHex(j.s).Some? && !(0 <= ParseHex(j.s).value < U64_LIMIT) ==> r == Failure(StructError)
  {
    match j
    case JStr(s) =>
      (match ParseHex(s)
       case None => Failure(InvalidLiteral)
       case Some(v) => if 0 <= v < U64_LIMIT then Success(v) else Failure(StructError))
    case _ => Failure(AttributeError)
  }

  /** `pack_spec.get('meta', {})`. */
  function Meta(d: map<string, Json>): Json {
    Lookup(d, "meta", JObj(map[]))
  }

  /** The encoded values `pack` stores. */
  datatype Fields = Fields(
    packVersion: nat, title: Bytes, titleZh: Bytes, publisher: Bytes,
    version: Bytes, cartId: nat, entry: Bytes, minFw: Bytes)

  /** The numbers fit their `'<I'` and `'<Q'` fields and every string its
      field. */
  predicate Valid(f: Fields) {
    && f.packVersion < Pow256(4) && f.cartId < Pow256(8)
    && |f.title| <= LENGTH_TITLE && |f.titleZh| <= LENGTH_TITLE_ZH && |f.publisher| <= LENGTH_PUBLISHER
    && |f.version| <= LENGTH_VERSION && |f.entry| <= LENGTH_ENTRY && |f.minFw| <= LENGTH_MIN_FW
  }

  /** The magic, the pack version and the title. */
  function Opening(f: Fields): (h: Bytes)
    requires Valid(f)
    ensures |h| == OFFSET_TITLE_ZH
  {
    FixedString(MAGIC_LITERAL, MAGIC_LENGTH) + LE(f.packVersion, 4) + PadTo(f.title, LENGTH_TITLE)
  }

  /** The opening and the next two strings. */
  function Head(f: Fields): (h: Bytes)
    requires Valid(f)
    ensures |h| == OFFSET_VERSION
  {
    Opening(f) + PadTo(f.titleZh, LENGTH_TITLE_ZH) + PadTo(f.publisher, LENGTH_PUBLISHER)
  }

  /** A check's outcome, its value dropped. */
  function Check<T>(r: Result<T>): (o: Outcome)
    ensures o.Pass? <==> r.Success?
    ensures o.Fail? ==> o.error == r.error
  {
    if r.Success? then Pass else Fail(r.error)
  }

  /** The first failing outcome of a list of checks made in order. */
  function FirstFailure(checks: seq<Outcome>): (o: Outcome)
    ensures o.Pass? <==> forall i :: 0 <= i < |checks| ==> checks[i].Pass?
    ensures o.Fail? ==> o in checks
  {
    if checks == [] then Pass
    else if checks[0].Fail? then checks[0]
    else
      assert forall i :: 1 <= i < |checks| ==> checks[i] == checks[1..][i - 1];
      FirstFailure(checks[1..])
  }

  /** The checks on the meta dict, in the order `pack` makes them: title,
      title_zh, publisher, version, cart_id, entry, min_fw. */
  function MetaChecks(m: map<string, Json>): (checks: seq<Outcome>)
    ensures |checks| == 7
    ensures (forall i :: 0 <= i < |checks| ==> checks[i].Pass?) <==> MetaFits(m)
  {
    var c1 := Check(EncodeString(Lookup(m, "title", JStr("")), "title", LENGTH_TITLE));
    var c2 := Check(EncodeString(Lookup(m, "title_zh", JStr("")), "title_zh", LENGTH_TITLE_ZH));
    var c3 := Check(EncodeString(Lookup(m, "publisher", JStr("")), "publisher", LENGTH_PUBLISHER));
    var c4 := Check(EncodeString(Lookup(m, "version", JStr("")), "version", LENGTH_VERSION));
    var c5 := Check(EncodeCartId(Lookup(m, "cart_id", JNull)));
    var c6 := Check(EncodeString(Lookup(m, "entry", JStr("")), "entry", LENGTH_ENTRY));
    var c7 := Check(EncodeString(Lookup(m, "min_fw", JStr("0.0.0")), "min_fw", LENGTH_MIN_FW));
    StringCheck(Lookup(m, "title", JStr("")), "title", LENGTH_TITLE);
    StringCheck(Lookup(m, "title_zh", JStr("")), "title_zh", LENGTH_TITLE_ZH);
    StringCheck(Lookup(m, "publisher", JStr("")), "publisher", LENGTH_PUBLISHER);
    StringCheck(Lookup(m, "version", JStr("")), "version", LENGTH_VERSION);
    IdCheck(Lookup(m, "cart_id", JNull));
    StringCheck(Lookup(m, "entry", JStr("")), "entry", LENGTH_ENTRY);
    StringCheck(Lookup(m, "min_fw", JStr("0.0.0")), "min_fw", LENGTH_MIN_FW);
    AllOfSeven(c1, c2, c3, c4, c5, c6, c7,
      StringFits(Lookup(m, "title", JStr("")), LENGTH_TITLE),
      StringFits(Lookup(m, "title_zh", JStr("")), LENGTH_TITLE_ZH),
      StringFits(Lookup(m, "publisher", JStr("")), LENGTH_PUBLISHER),
      StringFits(Lookup(m, "version", JStr("")), LENGTH_VERSION),
      IdFits(Lookup(m, "cart_id", JNull)),
      StringFits(Lookup(m, "entry", JStr("")), LENGTH_ENTRY),
      StringFits(Lookup(m, "min_fw", JStr("0.0.0")), LENGTH_MIN_FW));
    [c1, c2, c3, c4, c5, c6, c7]
  }

  /** A string check passes exactly on a string whose UTF-8 fits. */
  lemma StringCheck(j: Json, name: string, cap: nat)
    ensures Check(EncodeString(j, name, cap)).Pass? <==> StringFits(j, cap)
  {
  }

  /** The id check passes exactly on a string `int(s, 16)` reads as a u64. */
  lemma IdCheck(j: Json)
    ensures Check(EncodeCartId(j)).Pass? <==> IdFits(j)
  {
  }

  /** Seven checks all pass exactly when the seven conditions they test
      hold. */
  lemma AllOfSeven(c1: Outcome, c2: Outcome, c3: Outcome, c4: Outcome, c5: Outcome, c6: Outcome, c7: Outcome,
                   b1: bool, b2: bool, b3: bool, b4: bool, b5: bool, b6: bool, b7: bool)
    requires (c1.Pass? <==> b1) && (c2.Pass? <==> b2) && (c3.Pass? <==> b3) && (c4.Pass? <==> b4)
    requires (c5.Pass? <==> b5) && (c6.Pass? <==> b6) && (c7.Pass? <==> b7)
    ensures var checks := [c1, c2, c3, c4, c5, c6, c7];
      (forall i :: 0 <= i < |checks| ==> checks[i].Pass?) <==> b1 && b2 && b3 && b4 && b5 && b6 && b7
  {
    var checks := [c1, c2, c3, c4, c5, c6, c7];
    assert checks[0] == c1 && checks[1] == c2 && checks[2] == c3 && checks[3] == c4;
    assert checks[4] == c5 && checks[5] == c6 && checks[6] == c7;
  }

  /** Every meta value `pack` checks is acceptable: six strings whose UTF-8
      fits its field and an id that `int(s, 16)` reads as a u64. */
  predicate MetaFits(m: map<string, Json>) {
    && StringFits(Lookup(m, "title", JStr("")), LENGTH_TITLE)
    && StringFits(Lookup(m, "title_zh", JStr("")), LENGTH_TITLE_ZH)
    && StringFits(Lookup(m, "publisher", JStr("")), LENGTH_PUBLISHER)
    && StringFits(Lookup(m, "version", JStr("")), LENGTH_VERSION)
    && IdFits(Lookup(m, "cart_id", JNull))
    && StringFits(Lookup(m, "entry", JStr("")), LENGTH_ENTRY)
    && StringFits(Lookup(m, "min_fw", JStr("0.0.0")), LENGTH_MIN_FW)
  }

  /** A string whose UTF-8 fits `cap` bytes. */
  predicate StringFits(j: Json, cap: nat) {
    j.JStr? && |Utf8(j.s)| <= cap
  }

  /** A string `int(s, 16)` reads as a u64. */
  predicate IdFits(j: Json) {
    j.JStr? && ParseHex(j.s).Some? && 0 <= ParseHex(j.s).value < U64_LIMIT
  }

  /** Seven checks in a row stop at the first that fails. */
  lemma FirstOfSeven(c1: Outcome, c2: Outcome, c3: Outcome, c4: Outcome, c5: Outcome, c6: Outcome, c7: Outcome)
    ensures FirstFailure([c1, c2, c3, c4, c5, c6, c7]) ==
      if c1.Fail? then c1 else if c2.Fail? then c2 else if c3.Fail? then c3 else if c4.Fail? then c4
      else if c5.Fail? then c5 else if c6.Fail? then c6 else if c7.Fail? then c7 else Pass
  {
    FirstStep(c7, []);
    FirstStep(c6, [c7]);
    FirstStep(c5, [c6, c7]);
    FirstStep(c4, [c5, c6, c7]);
    FirstStep(c3, [c4, c5, c6, c7]);
    FirstStep(c2, [c3, c4, c5, c6, c7]);
    FirstStep(c1, [c2, c3, c4, c5, c6, c7]);
  }

  /** One step of `FirstFailure`. */
  lemma FirstStep(c: Outcome, rest: seq<Outcome>)
    ensures FirstFailure([c] + rest) == if c.Fail? then c else FirstFailure(rest)
  {
    assert ([c] + rest)[1..] == rest;
  }

  /** The meta values `pack` reads with a method of `str`: six strings
      and an id that `int(s, 16)` parses. */
  predicate MetaStrings(m: map<string, Json>) {
    && Lookup(m, "title", JStr("")).JStr? && Lookup(m, "title_zh", JStr("")).JStr?
    && Lookup(m, "publisher", JStr("")).JStr? && Lookup(m, "version", JStr("")).JStr?
    && Lookup(m, "cart_id", JNull).JStr? && ParseHex(Lookup(m, "cart_id", JNull).s).Some?
    && Lookup(m, "entry", JStr("")).JStr? && Lookup(m, "min_fw", JStr("0.0.0")).JStr?
  }

  /** The checks of `pack` on the meta dict: the outcome is the first
      failing one of `MetaChecks`, in that order. */
  function EncodeMeta(packVersion: nat, m: map<string, Json>): (r: Result<Fields>)
    requires packVersion < Pow256(4)
    ensures r.Success? ==> Valid(r.value) && r.value.packVersion == packVersion && MetaStrings(m)
    ensures r.Success? ==>
      && r.value.title == Utf8(Lookup(m, "title", JStr("")).s)
      && r.value.titleZh == Utf8(Lookup(m, "title_zh", JStr("")).s)
      && r.value.publisher == Utf8(Lookup(m, "publisher", JStr("")).s)
      && r.value.version == Utf8(Lookup(m, "version", JStr("")).s)
      && r.value.cartId == ParseHex(Lookup(m, "cart_id", JNull).s).value
      && r.value.entry == Utf8(Lookup(m, "entry", JStr("")).s)
      && r.value.minFw == Utf8(Lookup(m, "min_fw", JStr("0.0.0")).s)
    ensures Check(r) == FirstFailure(MetaChecks(m))
  {
    LimitsArePowers();
    var title := EncodeString(Lookup(m, "title", JStr("")), "title", LENGTH_TITLE);
    var titleZh := EncodeString(Lookup(m, "title_zh", JStr("")), "title_zh", LENGTH_TITLE_ZH);
    var publisher := EncodeString(Lookup(m, "publisher", JStr("")), "publisher", LENGTH_PUBLISHER);
    var version := EncodeString(Lookup(m, "version", JStr("")), "version", LENGTH_VERSION);
    var cartId := EncodeCartId(Lookup(m, "cart_id", JNull));
    var entry := EncodeString(Lookup(m, "entry", JStr("")), "entry", LENGTH_ENTRY);
    var minFw := EncodeString(Lookup(m, "min_fw", JStr("0.0.0")), "min_fw", LENGTH_MIN_FW);
    FirstOfSeven(Check(title), Check(titleZh), Check(publisher), Check(version), Check(cartId), Check(entry), Check(minFw));
    if title.Failure? then Failure(title.error)
    else if titleZh.Failure? then Failure(titleZh.error)
    else if publisher.Failure? then Failure(publisher.error)
    else if version.Failure? then Failure(version.error)
    else if cartId.Failure? then Failure(cartId.error)
    else if entry.Failure? then Failure(entry.error)
    else if minFw.Failure? then Failure(minFw.error)
    else Success(Fields(packVersion, title.value, titleZh.value, publisher.value, version.value, cartId.value, entry.value, minFw.value))
  }

  /** The checks of `pack` in the order it makes them: the pack version,
      then the meta dict (a missing one is `{}`), then its values; the dict
      lookups fail with `AttributeError` on a value that is no dict. */
  function EncodeFields(packSpec: Json): (r: Result<Fields>)
    ensures r.Success? ==> Valid(r.value)
    ensures r.Success? ==>
      && packSpec.JObj? && IntArg(Lookup(packSpec.fields, "pack_version", JNum(1))).Some?
      && Meta(packSpec.fields).JObj? && MetaStrings(Meta(packSpec.fields).fields)
    ensures !packSpec.JObj? ==> r == Failure(AttributeError)
    ensures packSpec.JObj? && U32Value(Lookup(packSpec.fields, "pack_version", JNum(1))).Failure? ==> r == Failure(StructError)
    ensures (packSpec.JObj? && U32Value(Lookup(packSpec.fields, "pack_version", JNum(1))).Success?
             && !Meta(packSpec.fields).JObj?) ==> r == Failure(AttributeError)
    ensures (packSpec.JObj? && U32Value(Lookup(packSpec.fields, "pack_version", JNum(1))).Success?
             && Meta(packSpec.fields).JObj?) ==>
              r == EncodeMeta(U32Value(Lookup(packSpec.fields, "pack_version", JNum(1))).value, Meta(packSpec.fields).fields)
  {
    LimitsArePowers();
    match packSpec
    case JObj(d) =>
      var packVersion :- U32Value(Lookup(d, "pack_version", JNum(1)));
      (match Meta(d)
       case JObj(m) => EncodeMeta(packVersion, m)
       case _ => Failure(AttributeError))
    case _ => Failure(AttributeError)
  }

  /** Once the meta dict is found and its id parses, `pack` can only fail
      on a string too long for its field, a value of the wrong type, or a
      number out of range. */
  lemma PackFailures(packSpec: Json)
    requires packSpec.JObj? && Meta(packSpec.fields).JObj?
    requires EncodeCartId(Lookup(Meta(packSpec.fields).fields, "cart_id", JNull)) != Failure(InvalidLiteral)
    ensures PackSpec(packSpec).Failure? ==>
      PackSpec(packSpec).error.FieldTooLong? || PackSpec(packSpec).error in {StructError, AttributeError}
  {
    var version := U32Value(Lookup(packSpec.fields, "pack_version", JNum(1)));
    if version.Success? {
      MetaFailures(version.value, Meta(packSpec.fields).fields);
    }
  }

  /** The failures of the meta checks when the id parses. */
  lemma MetaFailures(packVersion: nat, m: map<string, Json>)
    requires packVersion < Pow256(4)
    requires EncodeCartId(Lookup(m, "cart_id", JNull)) != Failure(InvalidLiteral)
    ensures EncodeMeta(packVersion, m).Failure? ==>
      EncodeMeta(packVersion, m).error.FieldTooLong? || EncodeMeta(packVersion, m).error in {StructError, AttributeError}
  {
  }

  /** The bytes in front of the reserved words, in the order `pack` stores
      them. */
  function Front(f: Fields): (h: Bytes)
    requires Valid(f)
    ensures |h| == RESERVED_START
  {
    Head(f) + PadTo(f.version, LENGTH_VERSION) + LE(f.cartId, 8) + PadTo(f.entry, LENGTH_ENTRY) + PadTo(f.minFw, LENGTH_MIN_FW)
  }

  /** The record before its CRC is stored: the front, then zeros. */
  function Layout(f: Fields): (h: Bytes)
    requires Valid(f)
    ensures |h| == HEADER_SIZE
  {
    Front(f) + Zeros(HEADER_SIZE - RESERVED_START)
  }

  /** The record with its CRC field zeroed, as the CRC is computed over it. */
  function ZeroCrc(h: Bytes): (z: Bytes)
    requires |h| == HEADER_SIZE
    ensures |z| == HEADER_SIZE && z[CRC_OFFSET..CRC_OFFSET + 4] == Zeros(4)
    ensures forall k :: 0 <= k < HEADER_SIZE && !(CRC_OFFSET <= k < CRC_OFFSET + 4) ==> z[k] == h[k]
  {
    Splice(h, CRC_OFFSET, Zeros(4))
  }

  /** A record whose CRC field holds the CRC of the record with that field
      zeroed. */
  predicate IsSealed(h: Bytes) {
    |h| == HEADER_SIZE && FromLE(h[CRC_OFFSET..CRC_OFFSET + 4]) == Crc32(ZeroCrc(h))
  }

  /** The CRC of the record with its field zeroed, stored in that field. */
  function SealBytes(h: Bytes): (s: Bytes)
    requires |h| == HEADER_SIZE
    ensures |s| == HEADER_SIZE
    ensures forall k :: 0 <= k < HEADER_SIZE && !(CRC_OFFSET <= k < CRC_OFFSET + 4) ==> s[k] == h[k]
    ensures IsSealed(s)
  {
    LimitsArePowers();
    var crc := Crc32(ZeroCrc(h));
    var s := Splice(h, CRC_OFFSET, LE(crc, 4));
    assert ZeroCrc(s) == ZeroCrc(h);
    FromLEOfLE(crc, 4);
    s
  }

  /** `Header(pack_spec).pack()`. */
  function PackSpec(packSpec: Json): (r: Result<Bytes>)
    ensures r.Success? <==> EncodeFields(packSpec).Success?
    ensures r.Failure? ==> r.error == EncodeFields(packSpec).error
    ensures r.Success? ==> IsSealed(r.value)
  {
    var f :- EncodeFields(packSpec);
    Success(SealBytes(Layout(f)))
  }

  /** The layout is zero from the reserved words to the end, so in the CRC
      field in particular. */
  lemma LayoutTail(f: Fields)
    requires Valid(f)
    ensures forall k :: RESERVED_START <= k < HEADER_SIZE ==> Layout(f)[k] == 0
    ensures ZeroCrc(Layout(f)) == Layout(f)
  {
    var L := Layout(f);
    assert ZeroCrc(L) == L by {
      assert forall k :: 0 <= k < HEADER_SIZE ==> ZeroCrc(L)[k] == L[k];
    }
  }

  /** One store of `pack`: the record is written up to `at` and zero after,
      and `v` goes right after what is written. */
  method Put(header: array<byte>, at: nat, ghost written: Bytes, v: Bytes)
    requires header.Length == HEADER_SIZE && at == |written| && at + |v| <= HEADER_SIZE
    requires header[..] == written + Zeros(HEADER_SIZE - at)
    modifies header
    ensures header[..] == written + v + Zeros(HEADER_SIZE - at - |v|)
  {
    StoreBytes(header, at, v);
    assert forall k :: 0 <= k < HEADER_SIZE ==> header[k] == (written + v + Zeros(HEADER_SIZE - at - |v|))[k];
  }

  /** A store of zeros where the record is zero changes nothing. */
  lemma ZeroStore(h: Bytes, at: nat)
    requires at + 4 <= |h| && forall k :: at <= k < at + 4 ==> h[k] == 0
    ensures Splice(h, at, LE(0, 4)) == h
  {
    LEZero(4);
    assert forall k :: 0 <= k < |h| ==> Splice(h, at, LE(0, 4))[k] == h[k];
  }

  /** The first two stores of `pack`: the magic and the pack version. */
  method StorePrefix(header: array<byte>, magic: Bytes, version: Bytes)
    requires |magic| == OFFSET_PACK_VERSION && |version| == OFFSET_TITLE - OFFSET_PACK_VERSION
    requires header.Length == HEADER_SIZE && header[..] == Zeros(HEADER_SIZE)
    modifies header
    ensures header[..] == magic + version + Zeros(HEADER_SIZE - OFFSET_TITLE)
  {
    assert header[..] == [] + Zeros(HEADER_SIZE);
    Put(header, 0, [], magic);
    assert [] + magic == magic;
    Put(header, OFFSET_PACK_VERSION, magic, version);
  }

  /** The first stores of `pack`, each at the offset where the one before
      ended: the magic, the pack version and the title. */
  method StoreOpening(header: array<byte>, f: Fields)
    requires Valid(f) && header.Length == HEADER_SIZE && header[..] == Zeros(HEADER_SIZE)
    modifies header
    ensures header[..] == Opening(f) + Zeros(HEADER_SIZE - OFFSET_TITLE_ZH)
  {
    var prefix := FixedString(MAGIC_LITERAL, MAGIC_LENGTH) + LE(f.packVersion, 4);
    StorePrefix(header, FixedString(MAGIC_LITERAL, MAGIC_LENGTH), LE(f.packVersion, 4));
    Put(header, OFFSET_TITLE, prefix, PadTo(f.title, LENGTH_TITLE));
  }

  /** The next two strings. */
  method StoreHead(header: array<byte>, f: Fields)
    requires Valid(f) && header.Length == HEADER_SIZE && header[..] == Zeros(HEADER_SIZE)
    modifies header
    ensures header[..] == Head(f) + Zeros(HEADER_SIZE - OFFSET_VERSION)
  {
    StoreOpening(header, f);
    ghost var written := Opening(f);
    Put(header, OFFSET_TITLE_ZH, written, PadTo(f.titleZh, LENGTH_TITLE_ZH));
    written := written + PadTo(f.titleZh, LENGTH_TITLE_ZH);
    Put(header, OFFSET_PUBLISHER, written, PadTo(f.publisher, LENGTH_PUBLISHER));
  }

  /** The remaining stores: the version string, the id, the entry and the
      minimum firmware. */
  method StoreFront(header: array<byte>, f: Fields)
    requires Valid(f) && header.Length == HEADER_SIZE && header[..] == Zeros(HEADER_SIZE)
    modifies header
    ensures header[..] == Layout(f)
  {
    StoreHead(header, f);
    ghost var written := Head(f);
    Put(header, OFFSET_VERSION, written, PadTo(f.version, LENGTH_VERSION));
    written := written + PadTo(f.version, LENGTH_VERSION);
    Put(header, OFFSET_CART_ID, written, LE(f.cartId, 8));
    written := written + LE(f.cartId, 8);
    Put(header, OFFSET_ENTRY, written, PadTo(f.entry, LENGTH_ENTRY));
    written := written + PadTo(f.entry, LENGTH_ENTRY);
    Put(header, OFFSET_MIN_FW, written, PadTo(f.minFw, LENGTH_MIN_FW));
  }

  /** The loop over the reserved words, each stored as a zero `'<I'`, and
      the zeroing of the CRC field: on the filled record neither changes a
      byte. */
  method ClearReserved(header: array<byte>, ghost f: Fields)
    requires Valid(f) && header.Length == HEADER_SIZE && header[..] == Layout(f)
    modifies header
    ensures header[..] == Layout(f)
  {
    ghost var plain := header[..];
    LayoutTail(f);
    ReservedWords();
    for i := 0 to |RESERVED|
      invariant header[..] == plain
    {
      var (_, offset, size) := RESERVED[i];
      if size == 4 {
        ZeroStore(plain, offset);
        StoreBytes(header, offset, LE(0, 4));
      }
    }
    ZeroStore(plain, CRC_OFFSET);
    StoreBytes(header, CRC_OFFSET, LE(0, 4));
  }

  /** `pack()`: the checks in the order the code makes them, the stores into
      a fresh `bytearray(4096)`, and the CRC of the whole record, whose CRC
      field is zero, stored at 424. */
  method Pack(packSpec: Json) returns (r: Result<Bytes>)
    ensures r == PackSpec(packSpec)
  {
    var encoded := EncodeFields(packSpec);
    if encoded.Failure? {
      return Failure(encoded.error);
    }
    var f := encoded.value;
    var header := NewZeros(HEADER_SIZE);
    StoreFront(header, f);
    ClearReserved(header, f);
    LayoutTail(f);
    LimitsArePowers();
    var crc := Crc32(header[..]);
    StoreBytes(header, CRC_OFFSET, LE(crc, 4));
    r := Success(header[..]);
  }

  /** Slices of the front: each value sits at its offset. */
  lemma FrontValues(f: Fields)
    requires Valid(f)
    ensures var h := Front(f);
      && h[..OFFSET_PACK_VERSION] == MAGIC_LITERAL[..MAGIC_LENGTH]
      && h[OFFSET_PACK_VERSION..OFFSET_TITLE] == LE(f.packVersion, 4)
      && h[OFFSET_TITLE..OFFSET_TITLE_ZH] == PadTo(f.title, LENGTH_TITLE)
      && h[OFFSET_TITLE_ZH..OFFSET_PUBLISHER] == PadTo(f.titleZh, LENGTH_TITLE_ZH)
      && h[OFFSET_PUBLISHER..OFFSET_VERSION] == PadTo(f.publisher, LENGTH_PUBLISHER)
      && h[OFFSET_VERSION..OFFSET_CART_ID] == PadTo(f.version, LENGTH_VERSION)
      && h[OFFSET_CART_ID..OFFSET_ENTRY] == LE(f.cartId, 8)
      && h[OFFSET_ENTRY..OFFSET_MIN_FW] == PadTo(f.entry, LENGTH_ENTRY)
      && h[OFFSET_MIN_FW..] == PadTo(f.minFw, LENGTH_MIN_FW)
  {
    LimitsArePowers();
    var h := Front(f);
    var head, opening := Head(f), Opening(f);
    assert h[..OFFSET_VERSION] == head;
    assert head[..OFFSET_TITLE_ZH] == opening;
    assert opening[..OFFSET_PACK_VERSION] == MAGIC_LITERAL[..MAGIC_LENGTH];
    assert opening[OFFSET_PACK_VERSION..OFFSET_TITLE] == LE(f.packVersion, 4);
    assert opening[OFFSET_TITLE..] == PadTo(f.title, LENGTH_TITLE);
    assert head[OFFSET_TITLE_ZH..OFFSET_PUBLISHER] == PadTo(f.titleZh, LENGTH_TITLE_ZH);
    assert head[OFFSET_PUBLISHER..] == PadTo(f.publisher, LENGTH_PUBLISHER);
    assert h[OFFSET_VERSION..OFFSET_CART_ID] == PadTo(f.version, LENGTH_VERSION);
    assert h[OFFSET_CART_ID..OFFSET_ENTRY] == LE(f.cartId, 8);
    assert h[OFFSET_ENTRY..OFFSET_MIN_FW] == PadTo(f.entry, LENGTH_ENTRY);
    assert h[OFFSET_MIN_FW..] == PadTo(f.minFw, LENGTH_MIN_FW);
  }

  /** Sealing the layout keeps the front and the zeros around the CRC. */
  lemma SealedLayout(f: Fields)
    requires Valid(f)
    ensures var h := SealBytes(Layout(f));
      && h[..RESERVED_START] == Front(f)
      && forall k :: RESERVED_START <= k < HEADER_SIZE && !(CRC_OFFSET <= k < CRC_OFFSET + 4) ==> h[k] == 0
  {
    var h, L := SealBytes(Layout(f)), Layout(f);
    assert L[..RESERVED_START] == Front(f);
    assert h[..RESERVED_START] == L[..RESERVED_START];
  }

  /** The values `pack` stores, read off the dict: the pack version (1 when
      absent), the UTF-8 encoding of each string and the id `int(s, 16)`
      gives. */
  lemma EncodedValues(packSpec: Json)
    requires EncodeFields(packSpec).Success?
    ensures var d := packSpec.fields; var m := Meta(d).fields; var f := EncodeFields(packSpec).value;
      && f.packVersion == IntArg(Lookup(d, "pack_version", JNum(1))).value
      && f.title == Utf8(Lookup(m, "title", JStr("")).s)
      && f.titleZh == Utf8(Lookup(m, "title_zh", JStr("")).s)
      && f.publisher == Utf8(Lookup(m, "publisher", JStr("")).s)
      && f.version == Utf8(Lookup(m, "version", JStr("")).s)
      && f.cartId == ParseHex(Lookup(m, "cart_id", JNull).s).value
      && f.entry == Utf8(Lookup(m, "entry", JStr("")).s)
      && f.minFw == Utf8(Lookup(m, "min_fw", JStr("0.0.0")).s)
  {
  }

  /** Where the values sit in the sealed layout. */
  lemma SealedValues(f: Fields)
    requires Valid(f)
    ensures var h := SealBytes(Layout(f));
      && h[..OFFSET_PACK_VERSION] == MAGIC_LITERAL[..MAGIC_LENGTH]
      && FromLE(h[OFFSET_PACK_VERSION..OFFSET_TITLE]) == f.packVersion
      && h[OFFSET_TITLE..OFFSET_TITLE_ZH] == PadTo(f.title, LENGTH_TITLE)
      && h[OFFSET_TITLE_ZH..OFFSET_PUBLISHER] == PadTo(f.titleZh, LENGTH_TITLE_ZH)
      && h[OFFSET_PUBLISHER..OFFSET_VERSION] == PadTo(f.publisher, LENGTH_PUBLISHER)
      && h[OFFSET_VERSION..OFFSET_CART_ID] == PadTo(f.version, LENGTH_VERSION)
      && FromLE(h[OFFSET_CART_ID..OFFSET_ENTRY]) == f.cartId
      && h[OFFSET_ENTRY..OFFSET_MIN_FW] == PadTo(f.entry, LENGTH_ENTRY)
      && h[OFFSET_MIN_FW..RESERVED_START] == PadTo(f.minFw, LENGTH_MIN_FW)
  {
    SealedLayout(f);
    FrontRead(f, SealBytes(Layout(f)));
  }

  /** A buffer that starts with the front of `f` holds its values. */
  lemma FrontRead(f: Fields, h: Bytes)
    requires Valid(f) && |h| >= RESERVED_START && h[..RESERVED_START] == Front(f)
    ensures && h[..OFFSET_PACK_VERSION] == MAGIC_LITERAL[..MAGIC_LENGTH]
      && FromLE(h[OFFSET_PACK_VERSION..OFFSET_TITLE]) == f.packVersion
      && h[OFFSET_TITLE..OFFSET_TITLE_ZH] == PadTo(f.title, LENGTH_TITLE)
      && h[OFFSET_TITLE_ZH..OFFSET_PUBLISHER] == PadTo(f.titleZh, LENGTH_TITLE_ZH)
      && h[OFFSET_PUBLISHER..OFFSET_VERSION] == PadTo(f.publisher, LENGTH_PUBLISHER)
      && h[OFFSET_VERSION..OFFSET_CART_ID] == PadTo(f.version, LENGTH_VERSION)
      && FromLE(h[OFFSET_CART_ID..OFFSET_ENTRY]) == f.cartId
      && h[OFFSET_ENTRY..OFFSET_MIN_FW] == PadTo(f.entry, LENGTH_ENTRY)
      && h[OFFSET_MIN_FW..RESERVED_START] == PadTo(f.minFw, LENGTH_MIN_FW)
  {
    FrontValues(f);
    var front := h[..RESERVED_START];
    assert h[..OFFSET_PACK_VERSION] == front[..OFFSET_PACK_VERSION];
    assert h[OFFSET_PACK_VERSION..OFFSET_TITLE] == front[OFFSET_PACK_VERSION..OFFSET_TITLE];
    assert h[OFFSET_TITLE..OFFSET_TITLE_ZH] == front[OFFSET_TITLE..OFFSET_TITLE_ZH];
    assert h[OFFSET_TITLE_ZH..OFFSET_PUBLISHER] == front[OFFSET_TITLE_ZH..OFFSET_PUBLISHER];
    assert h[OFFSET_PUBLISHER..OFFSET_VERSION] == front[OFFSET_PUBLISHER..OFFSET_VERSION];
    assert h[OFFSET_VERSION..OFFSET_CART_ID] == front[OFFSET_VERSION..OFFSET_CART_ID];
    assert h[OFFSET_CART_ID..OFFSET_ENTRY] == front[OFFSET_CART_ID..OFFSET_ENTRY];
    assert h[OFFSET_ENTRY..OFFSET_MIN_FW] == front[OFFSET_ENTRY..OFFSET_MIN_FW];
    assert h[OFFSET_MIN_FW..RESERVED_START] == front[OFFSET_MIN_FW..];
    FromLEOfLE(f.packVersion, 4);
    FromLEOfLE(f.cartId, 8);
  }

  /** The fixed values at the front of a packed record: the magic cut to
      "XHGC_PAC", the pack version (1 when absent) and the id parsed in
      base 16. */
  lemma PackedNumbers(packSpec: Json)
    requires PackSpec(packSpec).Success?
    ensures var d := packSpec.fields; var m := Meta(d).fields; var h := PackSpec(packSpec).value;
      && h[..OFFSET_PACK_VERSION] == MAGIC_LITERAL[..MAGIC_LENGTH]
      && FromLE(h[OFFSET_PACK_VERSION..OFFSET_TITLE]) == IntArg(Lookup(d, "pack_version", JNum(1))).value
      && FromLE(h[OFFSET_CART_ID..OFFSET_ENTRY]) == ParseHex(Lookup(m, "cart_id", JNull).s).value
  {
    EncodedValues(packSpec);
    SealedValues(EncodeFields(packSpec).value);
  }

  /** The six strings of a packed record, each UTF-8 encoded and padded
      with NUL to its field; one that fills its field has no NUL at all. */
  lemma PackedStrings(packSpec: Json)
    requires PackSpec(packSpec).Success?
    ensures var m := Meta(packSpec.fields).fields; var h := PackSpec(packSpec).value;
      && h[OFFSET_TITLE..OFFSET_TITLE_ZH] == PadTo(Utf8(Lookup(m, "title", JStr("")).s), LENGTH_TITLE)
      && h[OFFSET_TITLE_ZH..OFFSET_PUBLISHER] == PadTo(Utf8(Lookup(m, "title_zh", JStr("")).s), LENGTH_TITLE_ZH)
      && h[OFFSET_PUBLISHER..OFFSET_VERSION] == PadTo(Utf8(Lookup(m, "publisher", JStr("")).s), LENGTH_PUBLISHER)
      && h[OFFSET_VERSION..OFFSET_CART_ID] == PadTo(Utf8(Lookup(m, "version", JStr("")).s), LENGTH_VERSION)
      && h[OFFSET_ENTRY..OFFSET_MIN_FW] == PadTo(Utf8(Lookup(m, "entry", JStr("")).s), LENGTH_ENTRY)
      && h[OFFSET_MIN_FW..RESERVED_START] == PadTo(Utf8(Lookup(m, "min_fw", JStr("0.0.0")).s), LENGTH_MIN_FW)
  {
    EncodedValues(packSpec);
    SealedValues(EncodeFields(packSpec).value);
  }
  /** Everything after the strings is zero but the CRC, and the CRC covers
      the whole record with its field zeroed. */
  lemma PackedTail(packSpec: Json)
    requires PackSpec(packSpec).Success?
    ensures var h := PackSpec(packSpec).value;
      && |h| == HEADER_SIZE && IsSealed(h)
      && (forall k :: RESERVED_START <= k < CRC_OFFSET ==> h[k] == 0)
      && (forall k :: CRC_OFFSET + 4 <= k < HEADER_SIZE ==> h[k] == 0)
  {
    SealedLayout(EncodeFields(packSpec).value);
  }

  /** What an absent key stores: pack version 1, an empty string, and
      "0.0.0" for the minimum firmware. */
  lemma PackedDefaults(packSpec: Json)
    requires PackSpec(packSpec).Success?
    ensures var d := packSpec.fields; var m := Meta(d).fields; var h := PackSpec(packSpec).value;
      && ("pack_version" !in d ==> FromLE(h[OFFSET_PACK_VERSION..OFFSET_TITLE]) == 1)
      && ("title" !in m ==> h[OFFSET_TITLE..OFFSET_TITLE_ZH] == Zeros(LENGTH_TITLE))
      && ("publisher" !in m ==> h[OFFSET_PUBLISHER..OFFSET_VERSION] == Zeros(LENGTH_PUBLISHER))
      && ("min_fw" !in m ==> h[OFFSET_MIN_FW..RESERVED_START] == PadTo(Utf8("0.0.0"), LENGTH_MIN_FW))
  {
    EncodedValues(packSpec);
    SealedValues(EncodeFields(packSpec).value);
    assert Utf8("") == [];
    assert PadTo([], LENGTH_TITLE) == Zeros(LENGTH_TITLE);
  }
}
