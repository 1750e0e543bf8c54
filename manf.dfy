/** The MANF stage: the manifest section (a 16-byte header, one 8-byte
    directory entry per field, then the field blobs) built from the meta
    table, recorded in slot 2 and appended to the image. */
module Manf {
  import opened Errors
  import opened Bytes
  import opened PyStr
  import opened PyJson
  import opened AddrTable
  import opened Config
  import opened HeaderV2
  import opened Assemble

  const MANF_MAGIC: nat := 0x464E414D
  const MANF_VERSION: nat := 1
  const MANF_HEADER_SIZE: nat := 16
  const ENTRY_SIZE: nat := 8
  /** The field ids run from 1 to 14, in this order. */
  const FIELD_NAMES: seq<string> := [
    "title", "title_zh", "publisher", "version", "cart_id", "entry", "min_fw", "id",
    "description_default", "description_zh", "category", "tags", "author_name", "author_contact"]
  const FIELD_COUNT: nat := 14
  const FIELD_CART_ID: nat := 5

  /** The largest blob and the largest framed blob (u16 length + bytes). */
  const MAX_BLOB: nat := U16_LIMIT - 1
  const MAX_FRAME: nat := 2 + MAX_BLOB

  /** One collected manifest field: its id and its (non-`None`) value. */
  datatype Field = Field(id: nat, value: Json)

  // ---- _collect_fields ----

  /** `'\n'.join(items)`: `TypeError` unless every item is a string. */
  function JoinLines(items: seq<Json>): (r: Result<string>)
    ensures r.Success? <==> forall i :: 0 <= i < |items| ==> items[i].JStr?
    ensures r.Failure? ==> r.error == TypeError
  {
    if items == [] then Success("")
    else if !items[0].JStr? then Failure(TypeError)
    else if |items| == 1 then Success(items[0].s)
    else
      var rest :- JoinLines(items[1..]);
      assert forall i :: 1 <= i < |items| ==> items[i] == items[1..][i - 1];
      Success(items[0].s + "\n" + rest)
  }

  /** The value recorded for `tags`: none when falsy, a list joined by
      newlines, anything else as it is. */
  function TagsValue(tags: Json): (r: Result<Json>)
    ensures !Truthy(tags) ==> r == Success(JNull)
    ensures Truthy(tags) && !tags.JArr? ==> r == Success(tags)
    ensures tags.JArr? && Truthy(tags) ==>
      (r.Success? <==> forall i :: 0 <= i < |tags.items| ==> tags.items[i].JStr?)
  {
    if !Truthy(tags) then Success(JNull)
    else if tags.JArr? then
      var joined :- JoinLines(tags.items);
      Success(JStr(joined))
    else Success(tags)
  }

  /** The two values a falsy, dict or other `description` / `author`
      records under its two ids. */
  function Split(v: Json, first: string, second: string): (r: seq<Json>)
    ensures |r| == 2
  {
    if !Truthy(v) then [JNull, JNull]
    else if v.JObj? then [Lookup(v.fields, first, JNull), Lookup(v.fields, second, JNull)]
    else [v, JNull]
  }

  /** The value `_collect_fields` puts under each id 1..14 (`JNull` where it
      puts `None` or nothing). */
  function Candidates(meta: MetaSpec): (r: Result<seq<Json>>)
    ensures r.Success? ==> |r.value| == FIELD_COUNT
  {
    var tags :- TagsValue(meta.tags);
    Success([meta.title, meta.titleZh, meta.publisher, meta.version, meta.cartId, meta.entry, meta.minFw, meta.id]
      + Split(meta.description, "default", "zh-CN") + [meta.category, tags] + Split(meta.author, "name", "contact"))
  }

  /** The field the list `fs` holds with id `id`, if any. */
  predicate HasField(fs: seq<Field>, id: nat, v: Json) {
    exists i :: 0 <= i < |fs| && fs[i] == Field(id, v)
  }

  /** The non-`None` candidates, with ids counted from 1, in order. */
  function NonNull(c: seq<Json>): (fs: seq<Field>)
    ensures |fs| <= |c|
    ensures forall i :: 0 <= i < |fs| ==> 1 <= fs[i].id <= |c| && fs[i].value == c[fs[i].id - 1] != JNull
    ensures forall i, j :: 0 <= i < j < |fs| ==> fs[i].id < fs[j].id
  {
    if c == [] then []
    else
      var fs := NonNull(c[..|c| - 1]);
      var last := c[|c| - 1];
      assert forall k :: 0 <= k < |c| - 1 ==> c[k] == c[..|c| - 1][k];
      if last == JNull then fs else fs + [Field(|c|, last)]
  }

  /** Every non-`None` candidate is among the collected fields. */
  lemma {:induction false} NonNullPresent(c: seq<Json>, k: nat)
    requires k < |c| && c[k] != JNull
    ensures HasField(NonNull(c), k + 1, c[k])
    decreases |c|
  {
    var init := c[..|c| - 1];
    var fs := NonNull(init);
    if k < |c| - 1 {
      NonNullPresent(init, k);
      var i :| 0 <= i < |fs| && fs[i] == Field(k + 1, init[k]);
      assert NonNull(c)[i] == fs[i];
    } else {
      assert NonNull(c)[|fs|] == Field(|c|, c[k]);
    }
  }

  /** What `_collect_fields` can return: at most 14 fields with ids in
      1..14, strictly ascending, none `None`. */
  predicate Collected(fs: seq<Field>) {
    && |fs| <= FIELD_COUNT
    && (forall i :: 0 <= i < |fs| ==> 1 <= fs[i].id <= FIELD_COUNT && fs[i].value != JNull)
    && (forall i, j :: 0 <= i < j < |fs| ==> fs[i].id < fs[j].id)
  }

  /** `_collect_fields`. */
  function CollectFields(meta: MetaSpec): (r: Result<seq<Field>>)
    ensures r.Success? <==> TagsValue(meta.tags).Success?
    ensures r.Failure? ==> r.error == TypeError
    ensures r.Success? ==> Collected(r.value)
    ensures r.Success? ==> r.value == NonNull(Candidates(meta).value)
  {
    var c :- Candidates(meta);
    Success(NonNull(c))
  }

  /** The field with id `k + 1` is collected exactly when its candidate is
      not `None`, and then with the candidate as its value. */
  lemma CollectedFields(meta: MetaSpec, k: nat)
    requires CollectFields(meta).Success? && k < FIELD_COUNT
    ensures var fs := CollectFields(meta).value; var c := Candidates(meta).value;
      && ((exists i :: 0 <= i < |fs| && fs[i].id == k + 1) <==> c[k] != JNull)
      && (forall i :: 0 <= i < |fs| && fs[i].id == k + 1 ==> fs[i].value == c[k])
  {
    var c := Candidates(meta).value;
    if c[k] != JNull {
      NonNullPresent(c, k);
    }
  }

  // ---- _build_manf_content ----

  /** The blob of one field: `None` when the cart id does not parse with
      `int(v, 0)` (the `except ValueError` skip); `TypeError` when the cart
      id is not a string, `struct.error` when it does not fit a u64, and
      `AttributeError` when another value has no `.encode`. */
  function FieldBytes(f: Field): (r: Result<Option<Bytes>>)
    ensures r == Success(None) <==> f.id == FIELD_CART_ID && f.value.JStr? && ParseAuto(f.value.s).None?
  {
    if f.id == FIELD_CART_ID then
      if !f.value.JStr? then Failure(TypeError)
      else match ParseAuto(f.value.s)
        case None => Success(None)
        case Some(v) =>
          if 0 <= v < U64_LIMIT then (LimitsArePowers(); Success(Some(LE(v, 8)))) else Failure(StructError)
    else if !f.value.JStr? then Failure(AttributeError)
    else Success(Some(Utf8(f.value.s)))
  }

  /** The header reads the cart id as hexadecimal, the manifest with
      `int(v, 0)`: "1234" is 0x1234 in one and 1234 in the other. */
  lemma CartIdDecimal()
    ensures ParseHex("1234") == Some(0x1234) && ParseAuto("1234") == Some(1234)
  {
    var s := "1234";
    assert ValidDigits(s, 10) && ValidDigits(s, 16);
    FourDigits(s, 10);
    FourDigits(s, 16);
    assert DigitsValue(s, 10) == 1234 && DigitsValue(s, 16) == 0x1234;
    AsciiHex(s);
    AsciiDecimal(s);
  }

  /** "1A2B", a valid header cart id, is skipped by the manifest, which
      needs the `0x` prefix to read it the same way. */
  lemma CartIdHexDigits()
    ensures ParseHex("1A2B") == Some(0x1A2B) && ParseAuto("1A2B") == None
    ensures ParseAuto("0x1A2B") == Some(0x1A2B)
    ensures Skipped(Field(FIELD_CART_ID, JStr("1A2B")))
  {
    HexDigitsRead("1A2B");
    HexDigitsRefused("1A2B");
    HexDigitsPrefixed("0x1A2B");
  }

  lemma HexDigitsRead(s: string)
    requires |s| == 4 && s[0] == '1' && s[1] == 'A' && s[2] == '2' && s[3] == 'B'
    ensures ParseHex(s) == Some(0x1A2B)
  {
    assert DigitsValue(s, 16) == 0x1A2B by {
      FourDigits(s, 16);
    }
    assert ParseHex(s) == Some(DigitsValue(s, 16)) by {
      assert IsAscii(s) && ValidDigits(s, 16);
      AsciiHex(s);
    }
  }

  lemma HexDigitsRefused(s: string)
    requires |s| == 4 && s[0] == '1' && s[1] == 'A' && s[2] == '2' && s[3] == 'B'
    ensures ParseAuto(s) == None
  {
    assert IsAscii(s);
    assert !ValidDigits(s, 10) by {
      assert DigitValue(s[1]) == 10;
    }
    AsciiDecimal(s);
  }

  lemma HexDigitsPrefixed(p: string)
    requires p == "0x1A2B"
    ensures ParseAuto(p) == Some(0x1A2B)
  {
    var s := p[2..];
    assert DigitsValue(s, 16) == 0x1A2B by {
      assert s == "1A2B";
      FourDigits(s, 16);
    }
    assert ParseAuto(p) == Some(DigitsValue(s, 16)) by {
      assert s == "1A2B";
      assert IsAscii(p) && ValidDigits(s, 16);
      AsciiAutoHex(p);
    }
  }

  /** The value of four digits, most significant first. */
  lemma FourDigits(s: string, base: nat)
    requires |s| == 4 && forall i :: 0 <= i < 4 ==> s[i] != '_'
    ensures DigitsValue(s, base) == ((DigitValue(s[0]) * base + DigitValue(s[1])) * base + DigitValue(s[2])) * base + DigitValue(s[3])
  {
    var s3 := s[..3];
    var s2 := s3[..2];
    var s1 := s2[..1];
    assert s1[..0] == [];
    assert DigitsValue(s1, base) == DigitValue(s[0]);
    assert DigitsValue(s2, base) == DigitValue(s[0]) * base + DigitValue(s[1]);
    assert DigitsValue(s3, base) == (DigitValue(s[0]) * base + DigitValue(s[1])) * base + DigitValue(s[2]);
  }

  /** A field the loop skips. */
  predicate Skipped(f: Field) {
    f.id == FIELD_CART_ID && f.value.JStr? && ParseAuto(f.value.s).None?
  }

  /** The fields the loop writes, in order. */
  function Kept(fs: seq<Field>): (k: seq<Field>)
    ensures |k| <= |fs|
  {
    if fs == [] then []
    else
      var k := Kept(fs[..|fs| - 1]);
      if Skipped(fs[|fs| - 1]) then k else k + [fs[|fs| - 1]]
  }

  /** Dropping the skipped fields keeps a collected list collected, with
      no id above the last one. */
  lemma {:induction false} KeptCollected(fs: seq<Field>)
    requires Collected(fs)
    ensures Collected(Kept(fs))
    ensures fs != [] ==> forall i :: 0 <= i < |Kept(fs)| ==> Kept(fs)[i].id <= fs[|fs| - 1].id
    decreases |fs|
  {
    if fs != [] {
      var init := fs[..|fs| - 1];
      KeptCollected(init);
      if init != [] {
        assert init[|init| - 1].id < fs[|fs| - 1].id;
      }
    }
  }

  /** With no field skipped, every field is written. */
  lemma {:induction false} KeptAll(fs: seq<Field>)
    requires forall i :: 0 <= i < |fs| ==> !Skipped(fs[i])
    ensures Kept(fs) == fs
    decreases |fs|
  {
    if fs != [] {
      var init := fs[..|fs| - 1];
      assert forall i :: 0 <= i < |init| ==> init[i] == fs[i];
      KeptAll(init);
      assert init + [fs[|fs| - 1]] == fs;
    }
  }

  /** A skipped field is the only one left out: the ids of a collected list
      are distinct, so no other field is the cart id. */
  lemma {:induction false} KeptSkip(fs: seq<Field>, k: nat)
    requires Collected(fs) && k < |fs| && Skipped(fs[k])
    ensures Kept(fs) == fs[..k] + fs[k + 1..]
    decreases |fs|
  {
    if k == |fs| - 1 {
      KeptSkipLast(fs);
    } else {
      var init, last := fs[..|fs| - 1], fs[|fs| - 1];
      assert !Skipped(last) by {
        assert fs[k].id < last.id;
      }
      KeptNext(fs);
      CollectedInit(fs);
      assert init[k] == fs[k];
      KeptSkip(init, k);
      DropBeforeLast(fs, k);
    }
  }

  lemma CollectedInit(fs: seq<Field>)
    requires Collected(fs) && fs != []
    ensures Collected(fs[..|fs| - 1])
  {
  }

  lemma KeptSkipLast(fs: seq<Field>)
    requires Collected(fs) && fs != [] && Skipped(fs[|fs| - 1])
    ensures Kept(fs) == fs[..|fs| - 1]
  {
    var init, last := fs[..|fs| - 1], fs[|fs| - 1];
    forall i | 0 <= i < |init|
      ensures !Skipped(init[i])
    {
      assert init[i] == fs[i] && fs[i].id < last.id;
    }
    KeptAll(init);
  }

  lemma DropBeforeLast(fs: seq<Field>, k: nat)
    requires k < |fs| - 1
    ensures var init := fs[..|fs| - 1]; fs[..k] + fs[k + 1..] == init[..k] + init[k + 1..] + [fs[|fs| - 1]]
  {
    var init := fs[..|fs| - 1];
    assert init[..k] == fs[..k];
    assert init[k + 1..] + [fs[|fs| - 1]] == fs[k + 1..];
  }

  /** At most one field is skipped: the list loses one field when some field
      is skipped and none otherwise. */
  lemma SkipCount(fs: seq<Field>)
    requires Collected(fs)
    ensures |fs| - |Kept(fs)| == if exists k :: 0 <= k < |fs| && Skipped(fs[k]) then 1 else 0
  {
    if k :| 0 <= k < |fs| && Skipped(fs[k]) {
      KeptSkip(fs, k);
    } else {
      KeptAll(fs);
    }
  }

  /** A directory entry: the field id and the offset of its blob. */
  datatype Entry = Entry(id: nat, offset: nat)

  /** The loop's state: the entries so far, the blobs so far and
      `current_offset`. */
  datatype Body = Body(entries: seq<Entry>, blobs: seq<Bytes>, offset: nat)

  /** A blob as `field_data` holds it: the u16 length, then the bytes. */
  function Frame(b: Bytes): (f: Bytes)
    requires |b| < U16_LIMIT
    ensures |f| == 2 + |b| && f[2..] == b
  {
    LimitsArePowers();
    LE(|b|, 2) + b
  }

  predicate Framable(blobs: seq<Bytes>) {
    forall i :: 0 <= i < |blobs| ==> |blobs[i]| < U16_LIMIT
  }

  /** `field_data`: the framed blobs one after another. */
  function BlobData(blobs: seq<Bytes>): (d: Bytes)
    requires Framable(blobs)
    decreases |blobs|
  {
    if blobs == [] then [] else BlobData(blobs[..|blobs| - 1]) + Frame(blobs[|blobs| - 1])
  }

  /** One pass of the loop body: the field's encoding fails, is skipped,
      is too long for its u16 length, or is framed at the current offset. */
  function Step(acc: Body, f: Field): (r: Result<Body>)
    ensures FieldBytes(f).Failure? ==> r == Failure(FieldBytes(f).error)
    ensures FieldBytes(f) == Success(None) ==> r == Success(acc)
    ensures FieldBytes(f).Success? && FieldBytes(f).value.Some? ==> var b := FieldBytes(f).value.value;
      && (r.Success? <==> |b| < U16_LIMIT)
      && (r.Failure? ==> r.error == StructError)
      && (r.Success? ==> r.value == Body(acc.entries + [Entry(f.id, acc.offset)], acc.blobs + [b], acc.offset + 2 + |b|))
  {
    var blob :- FieldBytes(f);
    match blob
    case None => Success(acc)
    case Some(b) =>
      if |b| >= U16_LIMIT then Failure(StructError)
      else Success(Body(acc.entries + [Entry(f.id, acc.offset)], acc.blobs + [b], acc.offset + 2 + |b|))
  }

  /** The loop over `fields` from `current_offset = start`. */
  function Fold(fields: seq<Field>, start: nat): Result<Body>
    decreases |fields|
  {
    if fields == [] then Success(Body([], [], start))
    else
      var acc :- Fold(fields[..|fields| - 1], start);
      Step(acc, fields[|fields| - 1])
  }

  /** What the loop keeps about its state after `n` fields of which it
      wrote `kept`: one entry and one blob per written field, in order; each
      entry's offset is `start` plus the framed blobs before its own, and
      the final offset is `start` plus all of them, at most one largest
      frame per field. */
  predicate ShapedAs(kept: seq<Field>, n: nat, start: nat, body: Body) {
    && |body.entries| == |body.blobs| == |kept|
    && Framable(body.blobs)
    && body.offset == start + |BlobData(body.blobs)| <= start + n * 65537
    && (forall i :: 0 <= i < |body.entries| ==>
          && body.entries[i].id == kept[i].id
          && body.entries[i].offset == start + |BlobData(body.blobs[..i])| <= body.offset)
  }

  predicate Shaped(fields: seq<Field>, start: nat, body: Body) {
    ShapedAs(Kept(fields), |fields|, start, body)
  }

  /** Each blob is the encoding of the written field at the same place. */
  predicate Encodes(fields: seq<Field>, body: Body) {
    && |body.blobs| == |Kept(fields)|
    && forall i :: 0 <= i < |body.blobs| ==> FieldBytes(Kept(fields)[i]) == Success(Some(body.blobs[i]))
  }

  /** A loop that went through `fields` went through all but the last one
      and then took one more step. */
  lemma FoldLast(fields: seq<Field>, start: nat)
    requires fields != [] && Fold(fields, start).Success?
    ensures Fold(fields[..|fields| - 1], start).Success?
    ensures Step(Fold(fields[..|fields| - 1], start).value, fields[|fields| - 1]) == Fold(fields, start)
  {
  }

  /** The loop through one more field takes one more step. */
  lemma FoldNext(fields: seq<Field>, i: nat, start: nat)
    requires i < |fields| && Fold(fields[..i], start).Success?
    ensures Fold(fields[..i + 1], start) == Step(Fold(fields[..i], start).value, fields[i])
  {
    assert fields[..i + 1][..i] == fields[..i];
  }

  /** A field that encodes to a short enough blob is framed at the current
      offset. */
  lemma StepTaken(acc: Body, f: Field, b: Bytes)
    requires FieldBytes(f) == Success(Some(b)) && |b| < U16_LIMIT
    ensures Step(acc, f) == Success(Body(acc.entries + [Entry(f.id, acc.offset)], acc.blobs + [b], acc.offset + 2 + |b|))
  {
  }

  /** The fields written after one more field: one more exactly when it is
      not skipped. */
  lemma KeptNext(fields: seq<Field>)
    requires fields != []
    ensures var init := fields[..|fields| - 1]; var last := fields[|fields| - 1];
      Kept(fields) == if Skipped(last) then Kept(init) else Kept(init) + [last]
  {
  }

  /** One step keeps the shape. */
  lemma StepShaped(fields: seq<Field>, start: nat, acc: Body)
    requires fields != []
    requires Shaped(fields[..|fields| - 1], start, acc) && Step(acc, fields[|fields| - 1]).Success?
    ensures Shaped(fields, start, Step(acc, fields[|fields| - 1]).value)
  {
    var init, last := fields[..|fields| - 1], fields[|fields| - 1];
    KeptNext(fields);
    if !Skipped(last) {
      var b := FieldBytes(last).value.value;
      StepTaken(acc, last, b);
      FrameShaped(Kept(init), |init|, start, acc, last, b);
    }
  }

  /** Framing one more blob at the current offset keeps the shape. */
  lemma FrameShaped(kept: seq<Field>, n: nat, start: nat, acc: Body, f: Field, b: Bytes)
    requires ShapedAs(kept, n, start, acc) && |b| < U16_LIMIT
    ensures ShapedAs(kept + [f], n + 1, start, Body(acc.entries + [Entry(f.id, acc.offset)], acc.blobs + [b], acc.offset + 2 + |b|))
  {
    var body := Body(acc.entries + [Entry(f.id, acc.offset)], acc.blobs + [b], acc.offset + 2 + |b|);
    assert body.blobs[..|acc.blobs|] == acc.blobs;
    forall i | 0 <= i < |acc.entries|
      ensures body.entries[i].offset == start + |BlobData(body.blobs[..i])|
    {
      assert body.blobs[..i] == acc.blobs[..i];
    }
  }

  /** One step keeps every blob the encoding of its field. */
  lemma {:induction false} StepEncodes(fields: seq<Field>, start: nat, acc: Body)
    requires fields != []
    requires Encodes(fields[..|fields| - 1], acc) && Step(acc, fields[|fields| - 1]).Success?
    ensures Encodes(fields, Step(acc, fields[|fields| - 1]).value)
  {
    var init, last := fields[..|fields| - 1], fields[|fields| - 1];
    KeptNext(fields);
    if !Skipped(last) {
      var b := FieldBytes(last).value.value;
      assert Step(acc, last).value.blobs == acc.blobs + [b];
      PairwiseExtend(Kept(init), acc.blobs, last, b, (f, blob) => FieldBytes(f) == Success(Some(blob)));
    }
  }

  /** A relation that holds place by place between two sequences, and
      between the two elements appended to them, holds place by place
      between the extended sequences. */
  lemma PairwiseExtend<A, B>(xs: seq<A>, ys: seq<B>, x: A, y: B, rel: (A, B) -> bool)
    requires |xs| == |ys| && rel(x, y)
    requires forall i :: 0 <= i < |ys| ==> rel(xs[i], ys[i])
    ensures forall i :: 0 <= i < |ys| + 1 ==> rel((xs + [x])[i], (ys + [y])[i])
  {
    forall i | 0 <= i < |ys| + 1
      ensures rel((xs + [x])[i], (ys + [y])[i])
    {
      if i < |ys| {
        assert (xs + [x])[i] == xs[i] && (ys + [y])[i] == ys[i];
      }
    }
  }

  /** What the loop computes has the shape of `Shaped` and `Encodes`. */
  lemma {:induction false} FoldShape(fields: seq<Field>, start: nat)
    requires Fold(fields, start).Success?
    ensures Shaped(fields, start, Fold(fields, start).value)
    ensures Encodes(fields, Fold(fields, start).value)
    decreases |fields|
  {
    if fields != [] {
      var init := fields[..|fields| - 1];
      FoldLast(fields, start);
      FoldShape(init, start);
      StepShaped(fields, start, Fold(init, start).value);
      StepEncodes(fields, start, Fold(init, start).value);
    }
  }

  /** One directory entry: u8 id, three reserved zero bytes, u32 offset. */
  function EntryBytes(e: Entry): (b: Bytes)
    requires e.id < 256 && e.offset < U32_LIMIT
    ensures |b| == ENTRY_SIZE
  {
    LimitsArePowers();
    [e.id as byte, 0, 0, 0] + LE(e.offset, 4)
  }

  predicate Serialisable(entries: seq<Entry>) {
    forall i :: 0 <= i < |entries| ==> entries[i].id < 256 && entries[i].offset < U32_LIMIT
  }

  /** The directory: the entries one after another. */
  function Directory(entries: seq<Entry>): (d: Bytes)
    requires Serialisable(entries)
    ensures |d| == |entries| * ENTRY_SIZE
    decreases |entries|
  {
    if entries == [] then [] else Directory(entries[..|entries| - 1]) + EntryBytes(entries[|entries| - 1])
  }

  /** The 16-byte MANF header. */
  function ManfHeader(totalSize: nat, count: nat): (h: Bytes)
    requires totalSize < U32_LIMIT && count < U32_LIMIT
    ensures |h| == MANF_HEADER_SIZE
  {
    LimitsArePowers();
    LE(MANF_MAGIC, 4) + LE(MANF_VERSION, 4) + LE(totalSize, 4) + LE(count, 4)
  }

  /** Where the loop starts: past the header and one entry per collected
      field, skipped ones included. */
  function Start(fields: seq<Field>): nat {
    MANF_HEADER_SIZE + |fields| * ENTRY_SIZE
  }

  /** The largest `current_offset` a collected list can reach. */
  lemma OffsetBound(fields: seq<Field>, offset: nat)
    requires |fields| <= FIELD_COUNT && offset <= Start(fields) + |fields| * 65537
    ensures offset < U32_LIMIT
  {
  }

  /** The MANF content for a collected field list. */
  function Content(fields: seq<Field>): (r: Result<Bytes>)
    requires Collected(fields)
  {
    var body :- Fold(fields, Start(fields));
    FoldFits(fields, body);
    Success(Section(body.offset, body.entries, body.blobs))
  }

  /** The entries of a loop over collected fields serialise. */
  lemma FoldFits(fields: seq<Field>, body: Body)
    requires Collected(fields) && Fold(fields, Start(fields)) == Success(body)
    ensures body.offset < U32_LIMIT && |body.entries| <= |fields| && Serialisable(body.entries) && Framable(body.blobs)
  {
    FoldShape(fields, Start(fields));
    OffsetBound(fields, body.offset);
    KeptCollected(fields);
  }

  /** The framed blobs before index `i` are a prefix of all of them. */
  lemma {:induction false} BlobDataPrefix(blobs: seq<Bytes>, i: nat)
    requires Framable(blobs) && i <= |blobs|
    ensures |BlobData(blobs[..i])| <= |BlobData(blobs)| && BlobData(blobs[..i]) == BlobData(blobs)[..|BlobData(blobs[..i])|]
    decreases |blobs|
  {
    if i < |blobs| {
      var init := blobs[..|blobs| - 1];
      assert init[..i] == blobs[..i];
      BlobDataPrefix(init, i);
    } else {
      assert blobs[..i] == blobs;
    }
  }

  /** Entry `j` of the directory is the `j`-th 8-byte group. */
  lemma {:induction false} DirectoryAt(entries: seq<Entry>, j: nat)
    requires Serialisable(entries) && j < |entries|
    ensures Directory(entries)[j * ENTRY_SIZE..(j + 1) * ENTRY_SIZE] == EntryBytes(entries[j])
    decreases |entries|
  {
    var init := entries[..|entries| - 1];
    if j < |init| {
      DirectoryAt(init, j);
      assert init[j] == entries[j];
    }
  }

  /** Blob `j` is framed right after the frames of the blobs before it. */
  lemma BlobDataAt(blobs: seq<Bytes>, j: nat)
    requires Framable(blobs) && j < |blobs|
    ensures var p := |BlobData(blobs[..j])|;
      && p + 2 + |blobs[j]| <= |BlobData(blobs)|
      && BlobData(blobs)[p..p + 2 + |blobs[j]|] == Frame(blobs[j])
  {
    BlobDataPrefix(blobs, j + 1);
    var upto := blobs[..j + 1];
    assert upto[..|upto| - 1] == blobs[..j];
    assert BlobData(upto) == BlobData(blobs[..j]) + Frame(blobs[j]);
  }

  /** Four 4-byte words one after another. */
  lemma Words(a: Bytes, b: Bytes, c: Bytes, d: Bytes)
    requires |a| == 4 && |b| == 4 && |c| == 4 && |d| == 4
    ensures var h := a + b + c + d; h[0..4] == a && h[4..8] == b && h[8..12] == c && h[12..16] == d
  {
  }

  /** The MANF header fields read back. */
  lemma ManfHeaderFields(totalSize: nat, count: nat)
    requires totalSize < U32_LIMIT && count < U32_LIMIT
    ensures var h := ManfHeader(totalSize, count);
      && FromLE(h[0..4]) == MANF_MAGIC && FromLE(h[4..8]) == MANF_VERSION
      && FromLE(h[8..12]) == totalSize && FromLE(h[12..16]) == count
  {
    LimitsArePowers();
    var h := ManfHeader(totalSize, count);
    Words(LE(MANF_MAGIC, 4), LE(MANF_VERSION, 4), LE(totalSize, 4), LE(count, 4));
    FromLEOfLE(MANF_MAGIC, 4);
    FromLEOfLE(MANF_VERSION, 4);
    FromLEOfLE(totalSize, 4);
    FromLEOfLE(count, 4);
  }

  /** A MANF section: the header, the directory and the framed blobs. */
  function Section(offset: nat, entries: seq<Entry>, blobs: seq<Bytes>): Bytes
    requires offset < U32_LIMIT && |entries| < U32_LIMIT && Serialisable(entries) && Framable(blobs)
  {
    ManfHeader(offset, |entries|) + Directory(entries) + BlobData(blobs)
  }

  /** The header fields of a section read back, and its length. */
  lemma SectionHeaderFields(offset: nat, entries: seq<Entry>, blobs: seq<Bytes>)
    requires offset < U32_LIMIT && |entries| < U32_LIMIT && Serialisable(entries) && Framable(blobs)
    ensures var c := Section(offset, entries, blobs);
      && |c| == MANF_HEADER_SIZE + |entries| * ENTRY_SIZE + |BlobData(blobs)|
      && FromLE(c[0..4]) == MANF_MAGIC && FromLE(c[4..8]) == MANF_VERSION
      && FromLE(c[8..12]) == offset && FromLE(c[12..16]) == |entries|
  {
    var h := ManfHeader(offset, |entries|);
    var c := Section(offset, entries, blobs);
    assert c[0..4] == h[0..4] && c[4..8] == h[4..8] && c[8..12] == h[8..12] && c[12..16] == h[12..16];
    ManfHeaderFields(offset, |entries|);
  }

  /** Entry `j` of a section sits right after the header. */
  lemma SectionEntry(offset: nat, entries: seq<Entry>, blobs: seq<Bytes>, j: nat)
    requires offset < U32_LIMIT && |entries| < U32_LIMIT && Serialisable(entries) && Framable(blobs)
    requires j < |entries|
    ensures var c := Section(offset, entries, blobs); var at := MANF_HEADER_SIZE + j * ENTRY_SIZE;
      at + ENTRY_SIZE <= |c| && c[at..at + ENTRY_SIZE] == EntryBytes(entries[j])
  {
    var d := Directory(entries);
    DirectoryAt(entries, j);
    var at := MANF_HEADER_SIZE + j * ENTRY_SIZE;
    var c := Section(offset, entries, blobs);
    assert c == ManfHeader(offset, |entries|) + d + BlobData(blobs);
    assert c[at..at + ENTRY_SIZE] == d[j * ENTRY_SIZE..(j + 1) * ENTRY_SIZE];
  }

  /** Where the frame of blob `j` starts: after the header, the directory
      and the frames before it. */
  function FrameStart(entries: seq<Entry>, blobs: seq<Bytes>, j: nat): nat
    requires Framable(blobs) && j <= |blobs|
  {
    MANF_HEADER_SIZE + |entries| * ENTRY_SIZE + |BlobData(blobs[..j])|
  }

  /** Blob `j` of a section is framed after the directory and the frames
      before it. */
  lemma SectionFrame(offset: nat, entries: seq<Entry>, blobs: seq<Bytes>, j: nat)
    requires offset < U32_LIMIT && |entries| < U32_LIMIT && Serialisable(entries) && Framable(blobs)
    requires j < |blobs|
    ensures var c := Section(offset, entries, blobs); var at := FrameStart(entries, blobs, j);
      && at + 2 + |blobs[j]| <= |c|
      && FromLE(c[at..at + 2]) == |blobs[j]|
      && c[at + 2..at + 2 + |blobs[j]|] == blobs[j]
  {
    FrameInSection(offset, entries, blobs, j);
    FramedAt(Section(offset, entries, blobs), FrameStart(entries, blobs, j), blobs[j]);
  }

  /** The frame of blob `j` lies in the section at `FrameStart`. */
  lemma FrameInSection(offset: nat, entries: seq<Entry>, blobs: seq<Bytes>, j: nat)
    requires offset < U32_LIMIT && |entries| < U32_LIMIT && Serialisable(entries) && Framable(blobs)
    requires j < |blobs|
    ensures var c := Section(offset, entries, blobs); var at := FrameStart(entries, blobs, j);
      && at + 2 + |blobs[j]| <= |c|
      && c[at..at + 2 + |blobs[j]|] == Frame(blobs[j])
  {
    var prefix := ManfHeader(offset, |entries|) + Directory(entries);
    var data, p := BlobData(blobs), |BlobData(blobs[..j])|;
    assert Section(offset, entries, blobs) == prefix + data;
    assert |prefix| + p == FrameStart(entries, blobs, j);
    BlobDataAt(blobs, j);
    SliceAfter(prefix, data, p, 2 + |blobs[j]|);
  }

  /** Where a frame sits in `c`, its length field and its blob do too. */
  lemma FramedAt(c: Bytes, at: nat, b: Bytes)
    requires |b| < U16_LIMIT && at + 2 + |b| <= |c| && c[at..at + 2 + |b|] == Frame(b)
    ensures FromLE(c[at..at + 2]) == |b| && c[at + 2..at + 2 + |b|] == b
  {
    SliceSplit(c, at, 2, 2 + |b|);
    FrameParts(b);
  }

  /** The two parts of a slice, cut at `k`, are slices of the whole. */
  lemma SliceSplit(s: Bytes, at: nat, k: nat, n: nat)
    requires k <= n && at + n <= |s|
    ensures s[at..at + k] == s[at..at + n][..k]
    ensures s[at + k..at + n] == s[at..at + n][k..]
  {
  }

  /** A slice of `prefix + data` past the prefix is a slice of `data`. */
  lemma SliceAfter(prefix: Bytes, data: Bytes, p: nat, n: nat)
    requires p + n <= |data|
    ensures (prefix + data)[|prefix| + p..|prefix| + p + n] == data[p..p + n]
  {
  }

  /** A frame's first two bytes decode to its blob's length; the rest is the
      blob. */
  lemma FrameParts(b: Bytes)
    requires |b| < U16_LIMIT
    ensures var f := Frame(b); FromLE(f[..2]) == |b| && f[2..] == b
  {
    LimitsArePowers();
    assert Frame(b)[..2] == LE(|b|, 2);
    FromLEOfLE(|b|, 2);
  }


  /** What the loop over collected fields leaves: the section of its final
      offset, entries and blobs, one of each per written field. */
  lemma ContentValue(fields: seq<Field>, body: Body)
    requires Collected(fields) && Fold(fields, Start(fields)) == Success(body)
    ensures Framable(body.blobs) && Serialisable(body.entries) && body.offset < U32_LIMIT
    ensures |body.entries| == |body.blobs| == |Kept(fields)| <= |fields|
    ensures Content(fields) == Success(Section(body.offset, body.entries, body.blobs))
  {
    FoldFits(fields, body);
    FoldShape(fields, Start(fields));
  }

  /** The MANF section's header: the magic, version 1, `total_size` equal
      to the final offset (the header, one entry per collected field and the
      framed blobs) and `field_count` equal to the number of written fields;
      so `total_size` is the section's length plus 8 bytes per skipped
      field. */
  lemma ContentHeader(fields: seq<Field>, body: Body)
    requires Collected(fields) && Fold(fields, Start(fields)) == Success(body)
    ensures Framable(body.blobs) && Serialisable(body.entries) && body.offset < U32_LIMIT && |body.entries| < U32_LIMIT
    ensures var c := Section(body.offset, body.entries, body.blobs);
      && |c| == MANF_HEADER_SIZE + |Kept(fields)| * ENTRY_SIZE + |BlobData(body.blobs)|
      && FromLE(c[0..4]) == MANF_MAGIC && FromLE(c[4..8]) == MANF_VERSION
      && FromLE(c[8..12]) == MANF_HEADER_SIZE + |fields| * ENTRY_SIZE + |BlobData(body.blobs)|
      && FromLE(c[8..12]) == |c| + (|fields| - |Kept(fields)|) * ENTRY_SIZE
      && FromLE(c[12..16]) == |Kept(fields)|
  {
    FoldFits(fields, body);
    FoldShape(fields, Start(fields));
    SectionHeaderFields(body.offset, body.entries, body.blobs);
  }

  /** Directory entry `j` holds the id of the `j`-th written field and the
      offset `current_offset` had when it was written: the end of the
      directory as sized for every collected field, plus the frames before
      it. */
  lemma ContentEntry(fields: seq<Field>, body: Body, j: nat)
    requires Collected(fields) && Fold(fields, Start(fields)) == Success(body)
    requires j < |Kept(fields)|
    ensures Framable(body.blobs) && Serialisable(body.entries) && body.offset < U32_LIMIT
    ensures |body.entries| == |body.blobs| == |Kept(fields)|
    ensures body.entries[j] == Entry(Kept(fields)[j].id, Start(fields) + |BlobData(body.blobs[..j])|)
    ensures var c := Section(body.offset, body.entries, body.blobs); var at := MANF_HEADER_SIZE + j * ENTRY_SIZE;
      at + ENTRY_SIZE <= |c| && c[at..at + ENTRY_SIZE] == EntryBytes(body.entries[j])
  {
    FoldFits(fields, body);
    FoldShape(fields, Start(fields));
    SectionEntry(body.offset, body.entries, body.blobs, j);
  }

  /** The `j`-th written blob is the encoding of the `j`-th written field:
      its UTF-8 text, or the u64 of the cart id. */
  lemma ContentBlob(fields: seq<Field>, body: Body, j: nat)
    requires Collected(fields) && Fold(fields, Start(fields)) == Success(body)
    requires j < |Kept(fields)|
    ensures |body.entries| == |body.blobs| == |Kept(fields)|
    ensures FieldBytes(Kept(fields)[j]) == Success(Some(body.blobs[j]))
  {
    FoldShape(fields, Start(fields));
  }

  /** Entry `j` points at its frame when no field was skipped, and 8 bytes
      (one directory entry) past it when the cart id was skipped. */
  lemma EntryTarget(fields: seq<Field>, body: Body, j: nat)
    requires Collected(fields) && Fold(fields, Start(fields)) == Success(body)
    requires j < |Kept(fields)|
    ensures Framable(body.blobs) && |body.entries| == |body.blobs| == |Kept(fields)|
    ensures body.entries[j].offset == FrameStart(body.entries, body.blobs, j) + (|fields| - |Kept(fields)|) * ENTRY_SIZE
    ensures (exists k :: 0 <= k < |fields| && Skipped(fields[k])) ==> body.entries[j].offset == FrameStart(body.entries, body.blobs, j) + ENTRY_SIZE
    ensures (forall k :: 0 <= k < |fields| ==> !Skipped(fields[k])) ==> body.entries[j].offset == FrameStart(body.entries, body.blobs, j)
  {
    ContentEntry(fields, body, j);
    SkipCount(fields);
  }

  /** `_build_manf_content` on the configuration's meta table. */
  function ContentOf(meta: MetaSpec): (r: Result<Bytes>)
  {
    var fields :- CollectFields(meta);
    Content(fields)
  }

  /** `_build_manf_content` fails with `TypeError` when the tags list
      holds a non-string, and otherwise exactly when some collected field is
      rejected, with the error of the first one. */
  lemma ContentOutcome(meta: MetaSpec)
    ensures CollectFields(meta).Failure? ==> ContentOf(meta) == Failure(TypeError)
    ensures CollectFields(meta).Success? ==> var fs := CollectFields(meta).value;
      && (ContentOf(meta).Success? <==> forall k :: 0 <= k < |fs| ==> !Rejects(fs[k]))
      && (ContentOf(meta).Failure? ==> exists k :: FirstRejected(fs, k) && ContentOf(meta).error == RejectError(fs[k]))
  {
    if CollectFields(meta).Success? {
      var fs := CollectFields(meta).value;
      var folded := Fold(fs, Start(fs));
      assert ContentOf(meta).Success? <==> folded.Success?;
      if folded.Success? {
        FoldAcceptedAll(fs, Start(fs));
      } else {
        assert ContentOf(meta) == Failure(folded.error);
        FoldRejected(fs, Start(fs));
        var k :| FirstRejected(fs, k) && folded.error == RejectError(fs[k]);
      }
    }
  }

  /** `_build_manf_content`: the fields collected, the loop over them, then
      the header, the entries and the blobs appended to a fresh buffer. */
  method BuildContent(meta: MetaSpec) returns (r: Result<Bytes>)
    ensures r == ContentOf(meta)
  {
    var collected := CollectFields(meta);
    if collected.Failure? {
      return Failure(collected.error);
    }
    var fields := collected.value;
    var looped, fieldEntries, fieldData, currentOffset, body := EncodeFields(fields);
    if looped.Fail? {
      return Failure(looped.error);
    }
    FoldFits(fields, body);
    var content := ManfHeader(currentOffset, |fieldEntries|);
    content := AppendEntries(content, fieldEntries, body.entries);
    content := content + fieldData;
    r := Success(content);
  }

  /** The `for entry in field_entries: content.extend(entry)` loop. */
  method AppendEntries(content: Bytes, fieldEntries: seq<Bytes>, ghost entries: seq<Entry>) returns (r: Bytes)
    requires Serialisable(entries) && |fieldEntries| == |entries|
    requires forall j :: 0 <= j < |entries| ==> fieldEntries[j] == EntryBytes(entries[j])
    ensures r == content + Directory(entries)
  {
    r := content;
    for j := 0 to |fieldEntries|
      invariant r == content + Directory(entries[..j])
    {
      assert entries[..j + 1][..j] == entries[..j];
      r := r + fieldEntries[j];
    }
    assert entries[..|entries|] == entries;
  }

  /** The loop's variables `field_entries`, `field_data` and
      `current_offset` hold the entries, the framed blobs and the offset of
      `body`. */
  predicate Tracks(fieldEntries: seq<Bytes>, fieldData: Bytes, currentOffset: nat, body: Body) {
    && body.offset == currentOffset
    && Framable(body.blobs) && fieldData == BlobData(body.blobs)
    && Serialisable(body.entries) && |fieldEntries| == |body.entries|
    && forall j :: 0 <= j < |body.entries| ==> fieldEntries[j] == EntryBytes(body.entries[j])
  }

  /** The loop of `_build_manf_content`: the directory entries, the framed
      blobs and the final `current_offset` of `Fold`, or its failure. */
  method EncodeFields(fields: seq<Field>) returns (looped: Outcome, fieldEntries: seq<Bytes>, fieldData: Bytes, currentOffset: nat, ghost body: Body)
    requires Collected(fields)
    ensures looped.Pass? <==> Fold(fields, Start(fields)).Success?
    ensures looped.Fail? ==> Fold(fields, Start(fields)) == Failure(looped.error)
    ensures looped.Pass? ==> Fold(fields, Start(fields)) == Success(body) && Tracks(fieldEntries, fieldData, currentOffset, body)
  {
    fieldEntries, fieldData := [], [];
    currentOffset := MANF_HEADER_SIZE + |fields| * ENTRY_SIZE;
    ghost var start := currentOffset;
    assert start == Start(fields);
    body := Body([], [], start);
    for i := 0 to |fields|
      invariant Fold(fields[..i], start) == Success(body)
      invariant Tracks(fieldEntries, fieldData, currentOffset, body)
    {
      FoldNext(fields, i, start);
      FoldShape(fields[..i], start);
      OffsetBound(fields, currentOffset);
      var step;
      step, fieldEntries, fieldData, currentOffset, body := TakeField(fields[i], fieldEntries, fieldData, currentOffset, body);
      if step.Fail? {
        FoldFails(fields, i + 1, start);
        return step, [], [], 0, body;
      }
    }
    assert fields[..|fields|] == fields;
    looped := Pass;
  }

  /** One pass of the loop body on the loop's variables: the same decision
      as `Step`, and the variables updated as it updates the body. */
  method TakeField(field: Field, fieldEntries: seq<Bytes>, fieldData: Bytes, currentOffset: nat, ghost acc: Body)
    returns (step: Outcome, fieldEntries': seq<Bytes>, fieldData': Bytes, currentOffset': nat, ghost next: Body)
    requires field.id < 256 && currentOffset < U32_LIMIT
    requires Tracks(fieldEntries, fieldData, currentOffset, acc)
    ensures step.Pass? <==> Step(acc, field).Success?
    ensures step.Fail? ==> Step(acc, field) == Failure(step.error)
    ensures step.Pass? ==> Step(acc, field) == Success(next) && Tracks(fieldEntries', fieldData', currentOffset', next)
  {
    fieldEntries', fieldData', currentOffset', next := fieldEntries, fieldData, currentOffset, acc;
    var encoded := FieldBytes(field);
    if encoded.Failure? {
      return Fail(encoded.error), fieldEntries', fieldData', currentOffset', next;
    }
    if encoded.value.None? {
      return Pass, fieldEntries', fieldData', currentOffset', next;
    }
    var fieldBytes := encoded.value.value;
    var fieldSize := |fieldBytes|;
    if fieldSize >= U16_LIMIT {
      return Fail(StructError), fieldEntries', fieldData', currentOffset', next;
    }
    LimitsArePowers();
    fieldData' := fieldData + (LE(fieldSize, 2) + fieldBytes);
    var entry := [field.id as byte, 0, 0, 0] + LE(currentOffset, 4);
    fieldEntries' := fieldEntries + [entry];
    currentOffset' := currentOffset + 2 + fieldSize;
    next := Body(acc.entries + [Entry(field.id, currentOffset)], acc.blobs + [fieldBytes], currentOffset');
    TracksTaken(fieldEntries, fieldData, currentOffset, acc, field.id, fieldBytes);
    StepTaken(acc, field, fieldBytes);
    step := Pass;
  }

  /** The loop variables after one blob is framed track the body after it. */
  lemma TracksTaken(fieldEntries: seq<Bytes>, fieldData: Bytes, currentOffset: nat, acc: Body, id: nat, b: Bytes)
    requires id < 256 && currentOffset < U32_LIMIT && |b| < U16_LIMIT
    requires Tracks(fieldEntries, fieldData, currentOffset, acc)
    ensures Tracks(fieldEntries + [[id as byte, 0, 0, 0] + LE(currentOffset, 4)],
                     fieldData + (LE(|b|, 2) + b), currentOffset + 2 + |b|,
                     Body(acc.entries + [Entry(id, currentOffset)], acc.blobs + [b], currentOffset + 2 + |b|))
  {
    LimitsArePowers();
    var blobs := acc.blobs + [b];
    assert blobs[..|acc.blobs|] == acc.blobs;
    assert BlobData(blobs) == BlobData(acc.blobs) + Frame(b);
    var entries := acc.entries + [Entry(id, currentOffset)];
    assert EntryBytes(entries[|acc.entries|]) == [id as byte, 0, 0, 0] + LE(currentOffset, 4);
  }

  /** A field the loop stops at: its encoding raises, or its blob is too
      long for the u16 length (`struct.error`). */
  predicate Rejects(f: Field) {
    FieldBytes(f).Failure? || (FieldBytes(f).value.Some? && |FieldBytes(f).value.value| >= U16_LIMIT)
  }

  /** The error a rejected field raises. */
  function RejectError(f: Field): Error
    requires Rejects(f)
  {
    if FieldBytes(f).Failure? then FieldBytes(f).error else StructError
  }

  /** `k` is the first field the loop stops at. */
  predicate FirstRejected(fields: seq<Field>, k: int) {
    0 <= k < |fields| && Rejects(fields[k]) && forall i :: 0 <= i < k ==> !Rejects(fields[i])
  }

  /** One step fails exactly on a rejected field, with its error. */
  lemma StepRejects(acc: Body, f: Field)
    ensures Step(acc, f).Failure? <==> Rejects(f)
    ensures Step(acc, f).Failure? ==> Step(acc, f).error == RejectError(f)
  {
  }

  /** A failed loop stopped at its first rejected field, with that field's
      error. */
  lemma {:induction false} FoldRejected(fields: seq<Field>, start: nat)
    requires Fold(fields, start).Failure?
    ensures exists k :: FirstRejected(fields, k) && Fold(fields, start).error == RejectError(fields[k])
    decreases |fields|
  {
    var init, last := fields[..|fields| - 1], fields[|fields| - 1];
    if Fold(init, start).Failure? {
      FoldStops(fields, start);
      FoldRejected(init, start);
      var k :| FirstRejected(init, k) && Fold(init, start).error == RejectError(init[k]);
      FirstRejectedInit(fields, k);
    } else {
      FoldAcceptedAll(init, start);
      StepRejects(Fold(init, start).value, last);
      FirstRejectedLast(fields, init);
    }
  }

  /** A loop over fields none of which is rejected succeeds. */
  lemma {:induction false} FoldAccepts(fields: seq<Field>, start: nat)
    requires forall k :: 0 <= k < |fields| ==> !Rejects(fields[k])
    ensures Fold(fields, start).Success?
    decreases |fields|
  {
    if fields != [] {
      var init, last := fields[..|fields| - 1], fields[|fields| - 1];
      assert forall k :: 0 <= k < |init| ==> init[k] == fields[k];
      FoldAccepts(init, start);
      StepRejects(Fold(init, start).value, last);
    }
  }

  /** A loop that succeeded met no rejected field. */
  lemma {:induction false} FoldAcceptedAll(fields: seq<Field>, start: nat)
    requires Fold(fields, start).Success?
    ensures forall k :: 0 <= k < |fields| ==> !Rejects(fields[k])
    decreases |fields|
  {
    if fields != [] {
      var init, last := fields[..|fields| - 1], fields[|fields| - 1];
      FoldAcceptedLast(fields, start);
      FoldAcceptedAll(init, start);
      AcceptedExtend(fields, init);
    }
  }

  lemma FoldAcceptedLast(fields: seq<Field>, start: nat)
    requires fields != [] && Fold(fields, start).Success?
    ensures Fold(fields[..|fields| - 1], start).Success? && !Rejects(fields[|fields| - 1])
  {
    StepRejects(Fold(fields[..|fields| - 1], start).value, fields[|fields| - 1]);
  }

  lemma AcceptedExtend(fields: seq<Field>, init: seq<Field>)
    requires fields != [] && init == fields[..|fields| - 1] && !Rejects(fields[|fields| - 1])
    requires forall k :: 0 <= k < |init| ==> !Rejects(init[k])
    ensures forall k :: 0 <= k < |fields| ==> !Rejects(fields[k])
  {
    AllExtend(fields, init, f => !Rejects(f));
  }

  /** A property of every element of the front and of the last element
      holds of every element. */
  lemma AllExtend<T>(s: seq<T>, init: seq<T>, p: T -> bool)
    requires s != [] && init == s[..|s| - 1] && p(s[|s| - 1])
    requires forall k :: 0 <= k < |init| ==> p(init[k])
    ensures forall k :: 0 <= k < |s| ==> p(s[k])
  {
    forall k | 0 <= k < |init|
      ensures p(s[k])
    {
      assert init[k] == s[k];
    }
  }

  lemma FirstRejectedInit(fields: seq<Field>, k: int)
    requires fields != [] && FirstRejected(fields[..|fields| - 1], k)
    ensures FirstRejected(fields, k) && fields[k] == fields[..|fields| - 1][k]
  {
    var init := fields[..|fields| - 1];
    assert forall i :: 0 <= i < |init| ==> init[i] == fields[i];
  }

  lemma FirstRejectedLast(fields: seq<Field>, init: seq<Field>)
    requires fields != [] && init == fields[..|fields| - 1] && Rejects(fields[|fields| - 1])
    requires forall k :: 0 <= k < |init| ==> !Rejects(init[k])
    ensures FirstRejected(fields, |fields| - 1)
  {
    assert forall i :: 0 <= i < |init| ==> init[i] == fields[i];
  }

  /** A failure at field `i` ends the whole loop with that failure. */
  lemma {:induction false} FoldFails(fields: seq<Field>, i: nat, start: nat)
    requires 0 < i <= |fields| && Fold(fields[..i], start).Failure?
    ensures Fold(fields, start) == Failure(Fold(fields[..i], start).error)
    decreases |fields| - i
  {
    if i < |fields| {
      var upto := fields[..i + 1];
      assert upto[..|upto| - 1] == fields[..i];
      FoldStops(upto, start);
      FoldFails(fields, i + 1, start);
    } else {
      assert fields[..i] == fields;
    }
  }

  /** A failure is not overtaken by a later field. */
  lemma FoldStops(fields: seq<Field>, start: nat)
    requires fields != [] && Fold(fields[..|fields| - 1], start).Failure?
    ensures Fold(fields, start) == Fold(fields[..|fields| - 1], start)
  {
  }

  // ---- BuildManf.build ----

  /** `BuildManf.build` up to the file write, on the image read from disk:
      the section is built first, then recorded in slot 2 and appended. */
  function StageSpec(cart: Bytes, meta: MetaSpec, hash: HashSpec): (r: Result<Bytes>)
  {
    var content :- ContentOf(meta);
    AppendSpec(cart, SLOT_MANF, content, hash)
  }

  /** `BuildManf.build`, step by step. */
  method Build(cart: Bytes, meta: MetaSpec, hash: HashSpec) returns (r: Result<Bytes>)
    ensures r == StageSpec(cart, meta, hash)
  {
    var content := BuildContent(meta);
    if content.Failure? {
      return Failure(content.error);
    }
    r := AppendSection(cart, SLOT_MANF, content.value, hash);
  }

  /** The stage fails as the section does, and otherwise as the shared
      append step does. */
  lemma StageOutcome(cart: Bytes, meta: MetaSpec, hash: HashSpec)
    ensures ContentOf(meta).Failure? ==> StageSpec(cart, meta, hash) == Failure(ContentOf(meta).error)
    ensures ContentOf(meta).Success? ==> StageSpec(cart, meta, hash) == AppendSpec(cart, SLOT_MANF, ContentOf(meta).value, hash)
  {
  }

  /** With `image_crc32` off: slot 2 holds the section's aligned offset,
      size and CRC, every other slot is as it was, the header is sealed
      when `header_crc32` is truthy, and the section follows the old image,
      padded to the next boundary. */
  lemma StagePlain(cart: Bytes, meta: MetaSpec, hash: HashSpec, content: Bytes)
    requires |cart| >= HEADER_SIZE && !Truthy(hash.imageCrc32)
    requires ContentOf(meta) == Success(content) && StageSpec(cart, meta, hash).Success?
    ensures var out := StageSpec(cart, meta, hash).value;
      && SectionHeader(cart, SLOT_MANF, content, hash).Success?
      && SectionLaidOut(cart, SectionHeader(cart, SLOT_MANF, content, hash).value, content, out)
      && ReadSlot(out, SLOT_MANF) == Slot(SectionOffset(cart), |content|, SectionCrc(content))
      && (forall j :: 0 <= j < SLOT_COUNT && j != SLOT_MANF ==> ReadSlot(out, j) == ReadSlot(cart, j))
      && (Truthy(hash.headerCrc32) ==> IsSealed(out[..HEADER_SIZE]))
  {
    assert StageSpec(cart, meta, hash) == AppendSpec(cart, SLOT_MANF, content, hash);
    AppendSlots(cart, SLOT_MANF, content, hash);
  }

  /** With `image_crc32` on, the file is what `ImageRecorded` says about
      the image the stage writes with the switch off. */
  lemma StageImage(cart: Bytes, meta: MetaSpec, hash: HashSpec, content: Bytes)
    requires |cart| >= HEADER_SIZE && Truthy(hash.imageCrc32)
    requires ContentOf(meta) == Success(content) && StageSpec(cart, meta, hash).Success?
    ensures StageSpec(cart, meta, WithoutImageCrc(hash)).Success? && |StageSpec(cart, meta, WithoutImageCrc(hash)).value| >= HEADER_SIZE
    ensures ImageRecorded(StageSpec(cart, meta, WithoutImageCrc(hash)).value, content,
                          Padding(SectionOffset(cart), |content|), Truthy(hash.headerCrc32),
                          StageSpec(cart, meta, hash).value)
  {
    assert StageSpec(cart, meta, hash) == AppendSpec(cart, SLOT_MANF, content, hash);
    assert StageSpec(cart, meta, WithoutImageCrc(hash)) == AppendSpec(cart, SLOT_MANF, content, WithoutImageCrc(hash));
    AppendImage(cart, SLOT_MANF, content, hash);
    AppendPlain(cart, SLOT_MANF, content, WithoutImageCrc(hash));
  }
}
