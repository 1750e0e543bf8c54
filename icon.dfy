/** The ICON stage: a fresh header from the configuration, slot 0 pointing
    at the 200x200 BGRA icon right after the header, the icon padded to
    4 KiB, the header CRC always recomputed, and optionally the whole-image
    CRC in slot 6. The file-system work around it (resolving the path
    against the configuration file, the existence test, the Pillow
    processing, the atomic write and the read-back) is taken as inputs. */
module Icon {
  import opened Errors
  import opened Bytes
  import opened Checksum
  import opened PyJson
  import opened AddrTable
  import opened Config
  import opened HeaderV2
  import opened Assemble

  const ICON_WIDTH: nat := 200
  const ICON_HEIGHT: nat := 200
  const ICON_CHANNELS: nat := 4
  const ICON_SIZE: nat := ICON_WIDTH * ICON_HEIGHT * ICON_CHANNELS
  /** Where the icon ends: the header followed by the icon. */
  const ICON_END: nat := HEADER_SIZE + ICON_SIZE
  /** The length of every image the stage writes. */
  const ICON_IMAGE_SIZE: nat := 167936

  /** The options `_load_and_process_icon` passes to `process_image`. */
  datatype Preprocess = Preprocess(mode: Json, background: Json, resample: Json)

  /** `_resolve_icon_path` up to the path resolution, which is left out: the
      configured `icon.path`. */
  function IconPath(icon: Json): (r: Result<Json>)
    ensures !Truthy(icon) ==> r == Failure(IconConfigMissing)
    ensures Truthy(icon) && !icon.JObj? ==> r == Failure(AttributeError)
    ensures Truthy(icon) && icon.JObj? ==>
      r == if Truthy(Lookup(icon.fields, "path", JNull)) then Success(icon.fields["path"]) else Failure(IconPathMissing)
  {
    if !Truthy(icon) then Failure(IconConfigMissing)
    else
      var path :- Get(icon, "path", JNull);
      if !Truthy(path) then Failure(IconPathMissing) else Success(path)
  }

  /** The `preprocess` options with their defaults: mode `contain`,
      background `#000000`, resample `lanczos`. */
  function PreprocessOf(icon: Json): (r: Result<Preprocess>)
    ensures r.Success? ==> icon.JObj?
    ensures icon.JObj? && "preprocess" !in icon.fields ==>
      r == Success(Preprocess(JStr("contain"), JStr("#000000"), JStr("lanczos")))
    ensures icon.JObj? && "preprocess" in icon.fields && icon.fields["preprocess"].JObj? ==>
      var p := icon.fields["preprocess"].fields;
      r == Success(Preprocess(Lookup(p, "mode", JStr("contain")), Lookup(p, "background", JStr("#000000")),
                              Lookup(p, "resample", JStr("lanczos"))))
  {
    var pre :- Get(icon, "preprocess", JObj(map[]));
    match pre
    case JObj(p) =>
      Success(Preprocess(Lookup(p, "mode", JStr("contain")), Lookup(p, "background", JStr("#000000")),
                         Lookup(p, "resample", JStr("lanczos"))))
    case _ => Failure(AttributeError)
  }

  /** `_load_and_process_icon`, given whether the resolved file exists and
      what `process_image` returns for the options (the Pillow work is not
      modelled). Any exception of `process_image` becomes "Failed to process
      icon"; data of any length but 200*200*4 is a size mismatch. */
  function LoadIcon(icon: Json, found: bool, process: Preprocess -> Result<Bytes>): (r: Result<Bytes>)
    ensures !found ==> r == Failure(IconFileNotFound)
    ensures r.Success? <==>
      found && PreprocessOf(icon).Success? && process(PreprocessOf(icon).value).Success?
      && |process(PreprocessOf(icon).value).value| == ICON_SIZE
    ensures r.Success? ==> r.value == process(PreprocessOf(icon).value).value
    ensures found && PreprocessOf(icon).Success? && process(PreprocessOf(icon).value).Failure? ==>
      r == Failure(IconProcessFailed(process(PreprocessOf(icon).value).error))
    ensures found && PreprocessOf(icon).Success? && process(PreprocessOf(icon).value).Success?
            && |process(PreprocessOf(icon).value).value| != ICON_SIZE ==>
      r == Failure(IconSizeMismatch(ICON_SIZE, |process(PreprocessOf(icon).value).value|))
  {
    if !found then Failure(IconFileNotFound)
    else
      var pre :- PreprocessOf(icon);
      match process(pre)
      case Failure(e) => Failure(IconProcessFailed(e))
      case Success(data) =>
        if |data| != ICON_SIZE then Failure(IconSizeMismatch(ICON_SIZE, |data|)) else Success(data)
  }

  /** The zero bytes after the icon, up to the next 4 KiB boundary. */
  function IconPadding(): (pad: Bytes)
    ensures |pad| == ICON_IMAGE_SIZE - ICON_END
    ensures forall k :: 0 <= k < |pad| ==> pad[k] == 0
  {
    Zeros(Aligned(ICON_END) - ICON_END)
  }

  /** The header after slot 0 is written and the CRC recomputed. */
  function IconHeader(h0: Bytes): (h: Bytes)
    requires |h0| == HEADER_SIZE
    ensures |h| == HEADER_SIZE
  {
    SealBytes(SetSlot(h0, SLOT_ICON, HEADER_SIZE, ICON_SIZE, 0))
  }

  /** `BuildIcon.build` up to the file write: the image it writes. The
      header CRC is computed whatever `header_crc32` says. With
      `image_crc32` truthy, a copy of the sealed header gets slot 6 = (0,
      length, CRC) of the image assembled so far and is sealed again. */
  function BuildSpec(meta: MetaSpec, hash: HashSpec, icon: Json, found: bool, process: Preprocess -> Result<Bytes>): (r: Result<Bytes>)
  {
    var h0 :- PackWithoutCrcSpec(meta);
    StageSpec(h0, hash, icon, found, process)
  }

  /** The stage once `pack_without_crc` has produced the header `h0`. */
  function StageSpec(h0: Bytes, hash: HashSpec, icon: Json, found: bool, process: Preprocess -> Result<Bytes>): (r: Result<Bytes>)
  {
    var h1 :- SlotWrite(h0, SLOT_ICON, HEADER_SIZE, ICON_SIZE, 0);
    var _ :- IconPath(icon);
    var data :- LoadIcon(icon, found, process);
    var h2 :- Seal(h1);
    var cart := h2 + data + IconPadding();
    if !Truthy(hash.imageCrc32) then Success(cart)
    else
      var h4 :- ImageStep(h2, cart, true);
      Success(h4 + data + IconPadding())
  }

  /** `_verify_header_crc` on the bytes read back: the stored CRC of the
      first 4096 bytes against the CRC of a copy with that field zeroed. A
      file shorter than the header fails to unpack. */
  function VerifyHeaderCrc(cart: Bytes): (o: Outcome)
    ensures o.Pass? <==> |cart| >= HEADER_SIZE && IsSealed(cart[..HEADER_SIZE])
    ensures |cart| < HEADER_SIZE ==> o == Fail(StructError)
    ensures |cart| >= HEADER_SIZE && o.Fail? ==>
      o == Fail(HeaderCrcMismatch(FromLE(cart[CRC_OFFSET..HEADER_SIZE]), Crc32(ZeroCrc(cart[..HEADER_SIZE]))))
  {
    if |cart| < HEADER_SIZE then Fail(StructError)
    else
      var header := cart[..HEADER_SIZE];
      var stored := FromLE(header[CRC_OFFSET..]);
      var calculated := Crc32(header[..CRC_OFFSET] + Zeros(4));
      if stored != calculated then Fail(HeaderCrcMismatch(stored, calculated)) else Pass
  }

  /** `BuildIcon.build` on `bytearray`s, step by step, ending with the
      read-back check, which the sealed header always passes. */
  method Build(meta: MetaSpec, hash: HashSpec, icon: Json, found: bool, process: Preprocess -> Result<Bytes>)
    returns (r: Result<Bytes>)
    ensures r == BuildSpec(meta, hash, icon, found, process)
  {
    var packed := PackWithoutCrc(meta);
    if packed.Failure? {
      return Failure(packed.error);
    }
    StageValue(packed.value, hash, icon, found, process);
    var header := WriteIconSlot(packed.value);
    var path := IconPath(icon);
    if path.Failure? {
      return Failure(path.error);
    }
    var loaded := LoadIcon(icon, found, process);
    if loaded.Failure? {
      return Failure(loaded.error);
    }
    var cartData := Finish(packed.value, header, loaded.value, Truthy(hash.imageCrc32));
    r := Success(cartData);
    BuildVerifies(meta, hash, icon, found, process);
    var verified := VerifyHeaderCrc(cartData);
    assert verified.Pass?;
  }

  /** `bytearray(pack_without_crc())` with slot 0 written. */
  method WriteIconSlot(h0: Bytes) returns (header: array<byte>)
    requires |h0| == HEADER_SIZE
    ensures fresh(header) && header[..] == SetSlot(h0, SLOT_ICON, HEADER_SIZE, ICON_SIZE, 0)
  {
    header := FromSeq(h0);
    var iconOffset := HEADER_SIZE;
    var iconSize := ICON_SIZE;
    var o := WriteSlot(header, SLOT_ICON, iconOffset, iconSize, 0);
    assert o.Pass?;
  }

  /** From the padding on: reseal the header in place and assemble; with
      `image_crc32` on, write slot 6 into a resealed copy and assemble
      again. */
  method Finish(ghost h0: Bytes, header: array<byte>, iconData: Bytes, imageCrc: bool) returns (cartData: Bytes)
    requires |h0| == HEADER_SIZE && |iconData| == ICON_SIZE
    requires header[..] == SetSlot(h0, SLOT_ICON, HEADER_SIZE, ICON_SIZE, 0)
    modifies header
    ensures cartData == IconImage(h0, iconData, imageCrc)
  {
    var totalSize := HEADER_SIZE + ICON_SIZE;
    var padding := Zeros(Aligned(totalSize) - totalSize);
    assert padding == IconPadding();
    var o := Reseal(header);
    ghost var h2 := header[..];
    assert h2 == IconHeader(h0);
    cartData := header[..] + iconData + padding;
    ghost var plain := cartData;
    assert |plain| == ICON_IMAGE_SIZE;
    if imageCrc {
      var crc := Crc32(cartData);
      var final := FromSeq(header[..]);
      o := WriteSlot(final, SLOT_IMAGE, 0, |cartData|, crc);
      assert final[..] == SetSlot(h2, SLOT_IMAGE, 0, |plain|, Crc32(plain));
      o := Reseal(final);
      assert final[..] == ImageHeader(h2, plain, true);
      cartData := final[..] + iconData + padding;
    }
  }

  // ---- properties ----

  /** The image the stage assembles from a packed header and the icon. */
  function IconImage(h0: Bytes, data: Bytes, imageCrc: bool): (out: Bytes)
    requires |h0| == HEADER_SIZE && |data| == ICON_SIZE
    ensures |out| == ICON_IMAGE_SIZE
  {
    var h2 := IconHeader(h0);
    var plain := h2 + data + IconPadding();
    if imageCrc then ImageHeader(h2, plain, true) + data + IconPadding() else plain
  }

  /** Writing slot 0 of a full header cannot fail. */
  lemma IconSlotWrite(h0: Bytes)
    requires |h0| == HEADER_SIZE
    ensures SlotWrite(h0, SLOT_ICON, HEADER_SIZE, ICON_SIZE, 0) == Success(SetSlot(h0, SLOT_ICON, HEADER_SIZE, ICON_SIZE, 0))
  {
  }

  /** The stage on a full header: it succeeds exactly when the icon path
      is configured and the icon loads, and then writes `IconImage`. */
  lemma StageValue(h0: Bytes, hash: HashSpec, icon: Json, found: bool, process: Preprocess -> Result<Bytes>)
    requires |h0| == HEADER_SIZE
    ensures var r := StageSpec(h0, hash, icon, found, process);
      && (r.Success? <==> IconPath(icon).Success? && LoadIcon(icon, found, process).Success?)
      && (IconPath(icon).Failure? ==> r == Failure(IconPath(icon).error))
      && (IconPath(icon).Success? && LoadIcon(icon, found, process).Failure? ==>
            r == Failure(LoadIcon(icon, found, process).error))
      && (r.Success? ==> r.value == IconImage(h0, LoadIcon(icon, found, process).value, Truthy(hash.imageCrc32)))
  {
    IconSlotWrite(h0);
    if IconPath(icon).Success? && LoadIcon(icon, found, process).Success? {
      var h2 := IconHeader(h0);
      var data := LoadIcon(icon, found, process).value;
      ImageStepValue(h2, h2 + data + IconPadding(), true);
    }
  }

  /** The stage's image in terms of its inputs: the sealed header with slot
      0 written, the icon, the padding; with `image_crc32` on, the header
      replaced by one that also records the image in slot 6. */
  lemma IconValue(meta: MetaSpec, hash: HashSpec, icon: Json, found: bool, process: Preprocess -> Result<Bytes>)
    requires BuildSpec(meta, hash, icon, found, process).Success?
    ensures PackWithoutCrcSpec(meta).Success? && |PackWithoutCrcSpec(meta).value| == HEADER_SIZE
    ensures IconPath(icon).Success? && LoadIcon(icon, found, process).Success?
    ensures var h0 := PackWithoutCrcSpec(meta).value;
      var data := LoadIcon(icon, found, process).value;
      && BuildSpec(meta, hash, icon, found, process) == Success(IconImage(h0, data, Truthy(hash.imageCrc32)))
      && BuildSpec(meta, WithoutImageCrc(hash), icon, found, process) == Success(IconImage(h0, data, false))
  {
    var h0 := PackWithoutCrcSpec(meta).value;
    StageValue(h0, hash, icon, found, process);
    StageValue(h0, WithoutImageCrc(hash), icon, found, process);
  }

  /** A header of the right length followed by more bytes. */
  lemma Prefix(h: Bytes, rest: Bytes)
    requires |h| == HEADER_SIZE
    ensures (h + rest)[..HEADER_SIZE] == h && (h + rest)[..CRC_OFFSET] == h[..CRC_OFFSET]
    ensures (h + rest)[HEADER_SIZE..] == rest
  {
  }

  /** The sealed header with slot 0 written: slot 0 = (4096, 160000, 0),
      every other slot and every byte before the table as packed. */
  lemma IconHeaderShape(h0: Bytes)
    requires |h0| == HEADER_SIZE
    ensures var h := IconHeader(h0);
      && IsSealed(h)
      && h[..ADDR_TABLE_BASE] == h0[..ADDR_TABLE_BASE]
      && ReadSlot(h, SLOT_ICON) == Slot(HEADER_SIZE, ICON_SIZE, 0)
      && forall j :: 0 < j < SLOT_COUNT ==> ReadSlot(h, j) == ReadSlot(h0, j)
  {
    var h1 := SetSlot(h0, SLOT_ICON, HEADER_SIZE, ICON_SIZE, 0);
    var h := IconHeader(h0);
    assert h[..ADDR_TABLE_BASE] == h1[..ADDR_TABLE_BASE] by {
      assert h[..ADDR_TABLE_BASE] == h[..CRC_OFFSET][..ADDR_TABLE_BASE];
      assert h1[..ADDR_TABLE_BASE] == h1[..CRC_OFFSET][..ADDR_TABLE_BASE];
    }
    assert h1[..ADDR_TABLE_BASE] == h0[..ADDR_TABLE_BASE];
    ReadSetSlot(h0, SLOT_ICON, HEADER_SIZE, ICON_SIZE, 0);
    SlotsBeforeCrc(h, h1, SLOT_ICON);
    forall j | 0 < j < SLOT_COUNT
      ensures ReadSlot(h, j) == ReadSlot(h0, j)
    {
      ReadOtherSlot(h0, SLOT_ICON, j, HEADER_SIZE, ICON_SIZE, 0);
      SlotsBeforeCrc(h, h1, j);
    }
  }

  /** What `IconImage` lays out, for any full header `h0`. */
  predicate IconLaidOut(h0: Bytes, data: Bytes, imageCrc: bool, out: Bytes)
    requires |h0| == HEADER_SIZE && |data| == ICON_SIZE
  {
    && |out| == ICON_IMAGE_SIZE
    && out[HEADER_SIZE..ICON_END] == data
    && (forall k :: ICON_END <= k < |out| ==> out[k] == 0)
    && IsSealed(out[..HEADER_SIZE])
    && out[..ADDR_TABLE_BASE] == h0[..ADDR_TABLE_BASE]
    && ReadSlot(out, SLOT_ICON) == Slot(HEADER_SIZE, ICON_SIZE, 0)
    && (forall j :: 0 < j < SLOT_COUNT && j != SLOT_IMAGE ==> ReadSlot(out, j) == ReadSlot(h0, j))
    && (!imageCrc ==> ReadSlot(out, SLOT_IMAGE) == ReadSlot(h0, SLOT_IMAGE))
  }

  /** The icon and its padding after a header. */
  lemma IconBody(h: Bytes, data: Bytes, out: Bytes)
    requires |h| == HEADER_SIZE && |data| == ICON_SIZE && out == h + data + IconPadding()
    ensures out == h + (data + IconPadding())
    ensures out[HEADER_SIZE..ICON_END] == data
    ensures forall k :: ICON_END <= k < |out| ==> out[k] == 0
  {
    assert out[HEADER_SIZE..ICON_END] == (data + IconPadding())[..ICON_SIZE];
    forall k | ICON_END <= k < |out|
      ensures out[k] == 0
    {
      assert out[k] == IconPadding()[k - ICON_END];
    }
  }

  lemma IconImageLayout(h0: Bytes, data: Bytes, imageCrc: bool)
    requires |h0| == HEADER_SIZE && |data| == ICON_SIZE
    ensures IconLaidOut(h0, data, imageCrc, IconImage(h0, data, imageCrc))
  {
    IconHeaderShape(h0);
    if imageCrc {
      IconCrcLayout(h0, data);
    } else {
      IconPlainLayout(h0, data);
    }
  }

  lemma IconPlainLayout(h0: Bytes, data: Bytes)
    requires |h0| == HEADER_SIZE && |data| == ICON_SIZE
    requires IsSealed(IconHeader(h0)) && IconHeader(h0)[..ADDR_TABLE_BASE] == h0[..ADDR_TABLE_BASE]
    requires ReadSlot(IconHeader(h0), SLOT_ICON) == Slot(HEADER_SIZE, ICON_SIZE, 0)
    requires forall j :: 0 < j < SLOT_COUNT ==> ReadSlot(IconHeader(h0), j) == ReadSlot(h0, j)
    ensures IconLaidOut(h0, data, false, IconImage(h0, data, false))
  {
    var h2 := IconHeader(h0);
    var out := IconImage(h0, data, false);
    IconBody(h2, data, out);
    Prefix(h2, data + IconPadding());
    assert out[..ADDR_TABLE_BASE] == h2[..ADDR_TABLE_BASE] by {
      assert out[..ADDR_TABLE_BASE] == out[..HEADER_SIZE][..ADDR_TABLE_BASE];
    }
    forall j | 0 <= j < SLOT_COUNT
      ensures ReadSlot(out, j) == ReadSlot(h2, j)
    {
      SlotsBeforeCrc(out, h2, j);
    }
  }

  lemma IconCrcLayout(h0: Bytes, data: Bytes)
    requires |h0| == HEADER_SIZE && |data| == ICON_SIZE
    requires IconHeader(h0)[..ADDR_TABLE_BASE] == h0[..ADDR_TABLE_BASE]
    requires ReadSlot(IconHeader(h0), SLOT_ICON) == Slot(HEADER_SIZE, ICON_SIZE, 0)
    requires forall j :: 0 < j < SLOT_COUNT ==> ReadSlot(IconHeader(h0), j) == ReadSlot(h0, j)
    ensures IconLaidOut(h0, data, true, IconImage(h0, data, true))
  {
    var h2 := IconHeader(h0);
    var plain := h2 + data + IconPadding();
    var out := IconImage(h0, data, true);
    var h := ImageHeader(h2, plain, true);
    IconBody(h, data, out);
    Prefix(h, data + IconPadding());
    Prefix(h2, data + IconPadding());
    ImageHeaderBytes(h2, plain, true);
    ImageSlots(h2, plain, out);
    assert out[..ADDR_TABLE_BASE] == h2[..ADDR_TABLE_BASE] by {
      var h3 := SetSlot(h2, SLOT_IMAGE, 0, |plain|, Crc32(plain));
      assert out[..ADDR_TABLE_BASE] == out[..CRC_OFFSET][..ADDR_TABLE_BASE];
      assert h3[..ADDR_TABLE_BASE] == h3[..CRC_OFFSET][..ADDR_TABLE_BASE];
      assert h3[..ADDR_TABLE_BASE] == h2[..ADDR_TABLE_BASE];
    }
    forall j | 0 <= j < SLOT_COUNT && j != SLOT_IMAGE
      ensures ReadSlot(out, j) == ReadSlot(h2, j)
    {
      SlotsBeforeCrc(plain, h2, j);
    }
  }

  /** A packed header lists every slot as empty. */
  lemma PackedSlotsEmpty(meta: MetaSpec, j: nat)
    requires PackWithoutCrcSpec(meta).Success? && j < SLOT_COUNT
    ensures ReadSlot(PackWithoutCrcSpec(meta).value, j) == Slot(0, 0, 0)
  {
    var f := EncodeFields(meta).value;
    LayoutRest(f);
    SlotReadBack(Layout(f), Layout(f), j);
  }

  /** What the stage writes: 167936 bytes of sealed header (whatever
      `header_crc32` says), 160000 bytes of icon and zero padding; the
      header fields as `pack_without_crc` laid them out, slot 0 = (4096,
      160000, 0), and every slot but 0 and 6 empty; slot 6 is empty too
      when `image_crc32` is off. */
  lemma IconLayout(meta: MetaSpec, hash: HashSpec, icon: Json, found: bool, process: Preprocess -> Result<Bytes>)
    requires BuildSpec(meta, hash, icon, found, process).Success?
    ensures var out := BuildSpec(meta, hash, icon, found, process).value;
      && PackWithoutCrcSpec(meta).Success? && LoadIcon(icon, found, process).Success?
      && |out| == ICON_IMAGE_SIZE
      && out[HEADER_SIZE..ICON_END] == LoadIcon(icon, found, process).value
      && (forall k :: ICON_END <= k < |out| ==> out[k] == 0)
      && IsSealed(out[..HEADER_SIZE])
      && out[..ADDR_TABLE_BASE] == PackWithoutCrcSpec(meta).value[..ADDR_TABLE_BASE]
      && ReadSlot(out, SLOT_ICON) == Slot(HEADER_SIZE, ICON_SIZE, 0)
      && (forall j :: 0 < j < SLOT_COUNT && j != SLOT_IMAGE ==> ReadSlot(out, j) == Slot(0, 0, 0))
      && (!Truthy(hash.imageCrc32) ==> ReadSlot(out, SLOT_IMAGE) == Slot(0, 0, 0))
  {
    IconValue(meta, hash, icon, found, process);
    var h0 := PackWithoutCrcSpec(meta).value;
    var data := LoadIcon(icon, found, process).value;
    IconImageLayout(h0, data, Truthy(hash.imageCrc32));
    forall j | 0 < j < SLOT_COUNT
      ensures ReadSlot(h0, j) == Slot(0, 0, 0)
    {
      PackedSlotsEmpty(meta, j);
    }
  }

  /** With `image_crc32` on, slot 6 of the image holds (0, length, CRC) of
      the image built with it off, and nothing after the header differs. */
  lemma IconImageRecorded(h0: Bytes, data: Bytes)
    requires |h0| == HEADER_SIZE && |data| == ICON_SIZE
    ensures var out := IconImage(h0, data, true); var plain := IconImage(h0, data, false);
      && out[HEADER_SIZE..] == plain[HEADER_SIZE..]
      && ReadSlot(out, SLOT_IMAGE) == Slot(0, |plain|, Crc32(plain))
  {
    var h2 := IconHeader(h0);
    var plain := h2 + data + IconPadding();
    var out := IconImage(h0, data, true);
    var h := ImageHeader(h2, plain, true);
    IconBody(h, data, out);
    IconBody(h2, data, plain);
    Prefix(h, data + IconPadding());
    Prefix(h2, data + IconPadding());
    ImageHeaderBytes(h2, plain, true);
    ImageSlots(h2, plain, out);
  }

  /** With `image_crc32` on, slot 6 holds (0, length, CRC) of the image the
      stage would have written with it off; that image has the same length
      as the file, but an empty slot 6, so the CRC is not that of the
      file. */
  lemma IconImageCrc(meta: MetaSpec, hash: HashSpec, icon: Json, found: bool, process: Preprocess -> Result<Bytes>)
    requires BuildSpec(meta, hash, icon, found, process).Success? && Truthy(hash.imageCrc32)
    ensures BuildSpec(meta, WithoutImageCrc(hash), icon, found, process).Success?
    ensures var out := BuildSpec(meta, hash, icon, found, process).value;
      var plain := BuildSpec(meta, WithoutImageCrc(hash), icon, found, process).value;
      && |plain| == |out| == ICON_IMAGE_SIZE
      && out[HEADER_SIZE..] == plain[HEADER_SIZE..]
      && ReadSlot(out, SLOT_IMAGE) == Slot(0, |plain|, Crc32(plain))
      && ReadSlot(plain, SLOT_IMAGE) == Slot(0, 0, 0)
  {
    IconValue(meta, hash, icon, found, process);
    var h0 := PackWithoutCrcSpec(meta).value;
    var data := LoadIcon(icon, found, process).value;
    IconImageRecorded(h0, data);
    IconImageLayout(h0, data, false);
    PackedSlotsEmpty(meta, SLOT_IMAGE);
  }

  /** The stage fails exactly when packing the header, finding the icon
      configuration or loading the icon fails, and reports the first of
      these failures. */
  lemma IconOutcome(meta: MetaSpec, hash: HashSpec, icon: Json, found: bool, process: Preprocess -> Result<Bytes>)
    ensures var r := BuildSpec(meta, hash, icon, found, process);
      && (r.Success? <==>
            PackWithoutCrcSpec(meta).Success? && IconPath(icon).Success? && LoadIcon(icon, found, process).Success?)
      && (PackWithoutCrcSpec(meta).Failure? ==> r == Failure(EncodeFields(meta).error))
      && (PackWithoutCrcSpec(meta).Success? && IconPath(icon).Failure? ==> r == Failure(IconPath(icon).error))
      && (PackWithoutCrcSpec(meta).Success? && IconPath(icon).Success? && LoadIcon(icon, found, process).Failure? ==>
            r == Failure(LoadIcon(icon, found, process).error))
  {
    if PackWithoutCrcSpec(meta).Success? {
      StageValue(PackWithoutCrcSpec(meta).value, hash, icon, found, process);
    }
  }

  /** The image the stage writes passes its own read-back check. */
  lemma BuildVerifies(meta: MetaSpec, hash: HashSpec, icon: Json, found: bool, process: Preprocess -> Result<Bytes>)
    requires BuildSpec(meta, hash, icon, found, process).Success?
    ensures VerifyHeaderCrc(BuildSpec(meta, hash, icon, found, process).value) == Pass
  {
    IconLayout(meta, hash, icon, found, process);
  }
}
