/** The step the MANF, ENTRY and DATA stages share once their section is
    built: copy the header out of the current image, record the section in
    its slot at the next 4 KiB boundary, pad the section to a boundary,
    optionally reseal the header, append, and optionally record the
    whole-image CRC in slot 6. */
module Assemble {
  import opened Errors
  import opened Bytes
  import opened Checksum
  import opened Align
  import opened PyJson
  import opened AddrTable
  import opened Config
  import opened HeaderV2

  /** The section CRC the stages store: 0 for an empty section. */
  function SectionCrc(section: Bytes): (crc: nat)
    ensures crc < U32_LIMIT
    ensures section == [] ==> crc == 0
  {
    if |section| > 0 then Crc32(section) else 0
  }

  /** `align_to(n, 4096)`, in the division form that `AlignedIsAlignTo`
      shows equal to the bitmask form of `align_to`. */
  function Aligned(n: nat): (a: nat)
    ensures a % BOUNDARY == 0 && n <= a < n + BOUNDARY
    ensures n % BOUNDARY == 0 ==> a == n
  {
    (n + BOUNDARY - 1) / BOUNDARY * BOUNDARY
  }

  lemma AlignedIsAlignTo(n: nat)
    ensures Aligned(n) == AlignTo(n, BOUNDARY)
  {
    BoundaryIsPow2();
    AlignToDivForm(n, BOUNDARY);
  }

  /** Where the section is recorded: the image length rounded up to 4 KiB. */
  function SectionOffset(cart: Bytes): (offset: nat)
    ensures offset == Aligned(|cart|)
  {
    Aligned(|cart|)
  }

  /** The zero bytes that bring `offset + size` up to the next boundary. */
  function Padding(offset: nat, size: nat): (pad: Bytes)
    ensures |pad| < BOUNDARY && (offset + size + |pad|) % BOUNDARY == 0
    ensures forall k :: 0 <= k < |pad| ==> pad[k] == 0
  {
    Zeros(Aligned(offset + size) - (offset + size))
  }

  /** `calculate_and_write_header_crc` when the flag is truthy, the header
      unchanged otherwise. */
  function MaybeSeal(h: Bytes, on: bool): (r: Result<Bytes>)
    ensures !on ==> r == Success(h)
    ensures on ==> r == Seal(h)
  {
    if on then Seal(h) else Success(h)
  }

  /** The header after the section's slot is written and, when
      `header_crc32` is truthy, resealed. */
  function SectionHeader(cart: Bytes, slot: int, section: Bytes, hash: HashSpec): (r: Result<Bytes>)
  {
    var h1 :- SlotWrite(Take(cart, HEADER_SIZE), slot, SectionOffset(cart), |section|, SectionCrc(section));
    MaybeSeal(h1, Truthy(hash.headerCrc32))
  }

  /** The image assembled before `image_crc32` is looked at: the new header,
      the old image after its header, the section and the padding. */
  function Assembled(cart: Bytes, header: Bytes, section: Bytes): Bytes {
    header + (Drop(cart, HEADER_SIZE) + section + Padding(SectionOffset(cart), |section|))
  }

  /** The whole stage on the image read from disk, as the stages write it:
      with `image_crc32` truthy, a copy of the header gets slot 6 = (0,
      length, CRC) of the first assembly, and the file is rebuilt from that
      header, the first assembly's bytes after its header, and once more the
      section and its padding. */
  function AppendSpec(cart: Bytes, slot: int, section: Bytes, hash: HashSpec): (r: Result<Bytes>)
  {
    var h2 :- SectionHeader(cart, slot, section, hash);
    var image := Assembled(cart, h2, section);
    if !Truthy(hash.imageCrc32) then Success(image)
    else
      var h4 :- ImageStep(h2, image, Truthy(hash.headerCrc32));
      Success(h4 + (Drop(image, HEADER_SIZE) + section + Padding(SectionOffset(cart), |section|)))
  }

  /** The copy of the header that gets slot 6 = (0, length, CRC) of the
      first assembly, resealed when `header_crc32` is truthy. */
  function ImageStep(h2: Bytes, image: Bytes, seal: bool): Result<Bytes> {
    var h3 :- SlotWrite(h2, SLOT_IMAGE, 0, |image|, Crc32(image));
    MaybeSeal(h3, seal)
  }

  /** The stage on a `bytearray` copy of the header, step by step. */
  method AppendSection(cart: Bytes, slot: int, section: Bytes, hash: HashSpec) returns (r: Result<Bytes>)
    ensures r == AppendSpec(cart, slot, section, hash)
  {
    var header := FromSeq(Take(cart, HEADER_SIZE));
    var size := |section|;
    var crc := if size > 0 then Crc32(section) else 0;
    var offset := SectionOffset(cart);
    var o := WriteSlot(header, slot, offset, size, crc);
    if o.Fail? {
      return Failure(o.error);
    }
    var padding := Padding(offset, size);
    var headerCrc := Truthy(hash.headerCrc32);
    var imageCrc := Truthy(hash.imageCrc32);
    if headerCrc {
      o := Reseal(header);
      if o.Fail? {
        return Failure(o.error);
      }
    }
    var withCrc := header[..];
    var cartData := withCrc + (Drop(cart, HEADER_SIZE) + section + padding);
    assert SectionHeader(cart, slot, section, hash) == Success(withCrc);
    if imageCrc {
      var imageCrcValue := Crc32(cartData);
      var final := FromSeq(withCrc);
      o := WriteSlot(final, SLOT_IMAGE, 0, |cartData|, imageCrcValue);
      if o.Fail? {
        return Failure(o.error);
      }
      if headerCrc {
        // the first reseal passed, so this copy has the right length too
        o := Reseal(final);
      }
      cartData := final[..] + (Drop(cartData, HEADER_SIZE) + section + padding);
    }
    r := Success(cartData);
  }

  // ---- what a stage does to the header ----

  /** Two headers that agree before the CRC field have the same slots. */
  lemma SlotsBeforeCrc(h: Bytes, g: Bytes, j: nat)
    requires |h| >= CRC_OFFSET && |g| >= CRC_OFFSET && h[..CRC_OFFSET] == g[..CRC_OFFSET] && j < SLOT_COUNT
    ensures ReadSlot(h, j) == ReadSlot(g, j)
  {
    var off := SlotOffset(j);
    assert off + SLOT_SIZE <= TABLE_END;
    forall k | 0 <= k < CRC_OFFSET ensures h[k] == g[k] {
      assert h[k] == h[..CRC_OFFSET][k];
      assert g[k] == g[..CRC_OFFSET][k];
    }
    assert h[off..off + 8] == g[off..off + 8];
    assert h[off + 8..off + 12] == g[off + 8..off + 12];
    assert h[off + 12..off + 16] == g[off + 12..off + 16];
  }

  /** The slot-written header before the optional reseal. */
  function SlotHeader(cart: Bytes, slot: nat, section: Bytes): (h: Bytes)
    requires |cart| >= HEADER_SIZE && slot < SLOT_COUNT
    requires SectionOffset(cart) < U64_LIMIT && |section| < U32_LIMIT
    ensures |h| == HEADER_SIZE
  {
    SetSlot(cart[..HEADER_SIZE], slot, SectionOffset(cart), |section|, SectionCrc(section))
  }

  /** `SectionHeader` is the slot write followed by the optional reseal. */
  lemma SectionHeaderSteps(cart: Bytes, slot: nat, section: Bytes, hash: HashSpec)
    requires |cart| >= HEADER_SIZE && slot < SLOT_COUNT
    requires SectionHeader(cart, slot, section, hash).Success?
    ensures SectionOffset(cart) < U64_LIMIT && |section| < U32_LIMIT
    ensures var h1 := SlotHeader(cart, slot, section);
      SectionHeader(cart, slot, section, hash).value == if Truthy(hash.headerCrc32) then SealBytes(h1) else h1
  {
  }

  /** The slot a stage writes reads back as the section's offset, size and
      CRC, and every other slot is as it was. */
  lemma SlotHeaderSlots(cart: Bytes, slot: nat, section: Bytes, j: nat)
    requires |cart| >= HEADER_SIZE && slot < SLOT_COUNT && j < SLOT_COUNT
    requires SectionOffset(cart) < U64_LIMIT && |section| < U32_LIMIT
    ensures ReadSlot(SlotHeader(cart, slot, section), j) ==
              if j == slot then Slot(SectionOffset(cart), |section|, SectionCrc(section)) else ReadSlot(cart, j)
  {
    var h0 := cart[..HEADER_SIZE];
    if j == slot {
      ReadSetSlot(h0, slot, SectionOffset(cart), |section|, SectionCrc(section));
    } else {
      ReadOtherSlot(h0, slot, j, SectionOffset(cart), |section|, SectionCrc(section));
      SlotsBeforeCrc(h0, cart, j);
    }
  }

  /** The slot write leaves the CRC field alone. */
  lemma SlotHeaderTail(cart: Bytes, slot: nat, section: Bytes)
    requires |cart| >= HEADER_SIZE && slot < SLOT_COUNT
    requires SectionOffset(cart) < U64_LIMIT && |section| < U32_LIMIT
    ensures SlotHeader(cart, slot, section)[CRC_OFFSET..] == cart[CRC_OFFSET..HEADER_SIZE]
  {
    var h1 := SlotHeader(cart, slot, section);
    SlotsTileTable(0, SLOT_COUNT - 1);
    forall k | CRC_OFFSET <= k < HEADER_SIZE
      ensures h1[k] == cart[k]
    {
      if slot > 0 { SlotsTileTable(0, slot); }
    }
  }

  /** The header a stage writes: its slot holds the section's offset, size
      and CRC; every other slot and every other byte before the CRC field is
      as it was; the CRC field is fresh when `header_crc32` is truthy and
      carried over otherwise. */
  lemma SectionHeaderShape(cart: Bytes, slot: nat, section: Bytes, hash: HashSpec)
    requires |cart| >= HEADER_SIZE && slot < SLOT_COUNT
    requires SectionHeader(cart, slot, section, hash).Success?
    ensures var h := SectionHeader(cart, slot, section, hash).value;
      && |h| == HEADER_SIZE
      && ReadSlot(h, slot) == Slot(SectionOffset(cart), |section|, SectionCrc(section))
      && (forall j :: 0 <= j < SLOT_COUNT && j != slot ==> ReadSlot(h, j) == ReadSlot(cart, j))
      && (forall k :: 0 <= k < CRC_OFFSET && !(SlotOffset(slot) <= k < SlotOffset(slot) + SLOT_SIZE) ==> h[k] == cart[k])
      && (Truthy(hash.headerCrc32) ==> IsSealed(h))
      && (!Truthy(hash.headerCrc32) ==> h[CRC_OFFSET..] == cart[CRC_OFFSET..HEADER_SIZE])
  {
    SectionHeaderSteps(cart, slot, section, hash);
    var h1 := SlotHeader(cart, slot, section);
    SlotHeaderTail(cart, slot, section);
    var h := SectionHeader(cart, slot, section, hash).value;
    assert h[..CRC_OFFSET] == h1[..CRC_OFFSET];
    forall j | 0 <= j < SLOT_COUNT
      ensures ReadSlot(h, j) == if j == slot then Slot(SectionOffset(cart), |section|, SectionCrc(section)) else ReadSlot(cart, j)
    {
      SlotHeaderSlots(cart, slot, section, j);
      SlotsBeforeCrc(h, h1, j);
    }
    forall k | 0 <= k < CRC_OFFSET && !(SlotOffset(slot) <= k < SlotOffset(slot) + SLOT_SIZE)
      ensures h[k] == cart[k]
    {
      assert h[k] == h[..CRC_OFFSET][k] == h1[..CRC_OFFSET][k];
    }
  }

  // ---- what a stage does to the image ----

  /** A header followed by the rest of an image. */
  lemma AfterHeader(h: Bytes, rest: Bytes)
    requires |h| == HEADER_SIZE
    ensures (h + rest)[..HEADER_SIZE] == h && (h + rest)[HEADER_SIZE..] == rest
  {
  }

  /** The switches with the whole-image CRC turned off. */
  function WithoutImageCrc(hash: HashSpec): HashSpec {
    hash.(imageCrc32 := JBool(false))
  }

  /** How a stage's output is laid out with `image_crc32` off: the new
      header, the old image after its header, the section starting where the
      old image ended, and fewer than 4096 zero bytes of padding; the output
      is aligned exactly when the old image was. */
  predicate SectionLaidOut(cart: Bytes, header: Bytes, section: Bytes, out: Bytes)
    requires |cart| >= HEADER_SIZE
  {
    var n := |cart|;
    && n + |section| <= |out| < n + |section| + BOUNDARY
    && out[..HEADER_SIZE] == header
    && out[HEADER_SIZE..n] == cart[HEADER_SIZE..]
    && out[n..n + |section|] == section
    && (forall k :: n + |section| <= k < |out| ==> out[k] == 0)
    && (|out| % BOUNDARY == 0 <==> n % BOUNDARY == 0)
  }

  lemma AssembledLaidOut(cart: Bytes, header: Bytes, section: Bytes)
    requires |cart| >= HEADER_SIZE && |header| == HEADER_SIZE
    ensures SectionLaidOut(cart, header, section, Assembled(cart, header, section))
  {
    Pieces(header, cart[HEADER_SIZE..], section, Padding(SectionOffset(cart), |section|));
    PlainAlignment(|cart|, |section|);
  }

  /** With `image_crc32` off the output is laid out as `SectionLaidOut`
      says, under the header `SectionHeaderShape` describes; the recorded
      offset is where the section starts exactly when the old image was
      aligned. */
  lemma AppendPlain(cart: Bytes, slot: nat, section: Bytes, hash: HashSpec)
    requires |cart| >= HEADER_SIZE && !Truthy(hash.imageCrc32)
    requires AppendSpec(cart, slot, section, hash).Success?
    ensures SectionHeader(cart, slot, section, hash).Success?
    ensures SectionLaidOut(cart, SectionHeader(cart, slot, section, hash).value, section, AppendSpec(cart, slot, section, hash).value)
    ensures SectionOffset(cart) == |cart| <==> |cart| % BOUNDARY == 0
  {
    PlainValue(cart, slot, section, hash);
    AssembledLaidOut(cart, SectionHeader(cart, slot, section, hash).value, section);
  }

  /** With `image_crc32` off, the output's slots are the stage header's:
      the section's slot records it and every other slot is as it was; the
      header is sealed when `header_crc32` is truthy. */
  lemma AppendSlots(cart: Bytes, slot: nat, section: Bytes, hash: HashSpec)
    requires |cart| >= HEADER_SIZE && slot < SLOT_COUNT && !Truthy(hash.imageCrc32)
    requires AppendSpec(cart, slot, section, hash).Success?
    ensures var out := AppendSpec(cart, slot, section, hash).value;
      && SectionHeader(cart, slot, section, hash).Success?
      && SectionLaidOut(cart, SectionHeader(cart, slot, section, hash).value, section, out)
      && ReadSlot(out, slot) == Slot(SectionOffset(cart), |section|, SectionCrc(section))
      && (forall j :: 0 <= j < SLOT_COUNT && j != slot ==> ReadSlot(out, j) == ReadSlot(cart, j))
      && (Truthy(hash.headerCrc32) ==> IsSealed(out[..HEADER_SIZE]))
  {
    AppendPlain(cart, slot, section, hash);
    SectionHeaderShape(cart, slot, section, hash);
    var h := SectionHeader(cart, slot, section, hash).value;
    var out := AppendSpec(cart, slot, section, hash).value;
    assert out[..HEADER_SIZE][..CRC_OFFSET] == out[..CRC_OFFSET];
    forall j | 0 <= j < SLOT_COUNT
      ensures ReadSlot(out, j) == ReadSlot(h, j)
    {
      SlotsBeforeCrc(out, h, j);
    }
  }

  /** With `image_crc32` off the stage's output is the first assembly. */
  lemma PlainValue(cart: Bytes, slot: nat, section: Bytes, hash: HashSpec)
    requires |cart| >= HEADER_SIZE && !Truthy(hash.imageCrc32)
    requires AppendSpec(cart, slot, section, hash).Success?
    ensures SectionHeader(cart, slot, section, hash).Success?
    ensures |SectionHeader(cart, slot, section, hash).value| == HEADER_SIZE
    ensures AppendSpec(cart, slot, section, hash).value == Assembled(cart, SectionHeader(cart, slot, section, hash).value, section)
  {
  }

  /** Where the pieces of `h + (tail + section + pad)` lie. */
  lemma Pieces(h: Bytes, tail: Bytes, section: Bytes, pad: Bytes)
    requires |h| == HEADER_SIZE && forall k :: 0 <= k < |pad| ==> pad[k] == 0
    ensures var out := h + (tail + section + pad); var n := HEADER_SIZE + |tail|;
      && |out| == n + |section| + |pad|
      && out[..HEADER_SIZE] == h && out[HEADER_SIZE..] == tail + section + pad
      && out[HEADER_SIZE..n] == tail
      && out[n..n + |section|] == section
      && (forall k :: n + |section| <= k < |out| ==> out[k] == 0)
  {
    var out := h + (tail + section + pad);
    var n := HEADER_SIZE + |tail|;
    forall k | n + |section| <= k < |out| ensures out[k] == 0 {
      assert out[k] == pad[k - n - |section|];
    }
  }

  /** The recorded offset is the old length, and the new length is on a
      boundary, exactly when the old length was on one. */
  lemma PlainAlignment(n: nat, size: nat)
    ensures var offset := Aligned(n);
      && (offset == n <==> n % BOUNDARY == 0)
      && ((n + size + |Padding(offset, size)|) % BOUNDARY == 0 <==> n % BOUNDARY == 0)
  {
    var offset := Aligned(n);
    LengthAligned(n, offset, size, |Padding(offset, size)|);
  }

  /** `n + size + pad` is on a boundary exactly when `n` is, given that `n`
      rounds up to `offset` and `offset + size + pad` is on a boundary. */
  lemma LengthAligned(n: nat, offset: nat, size: nat, pad: nat)
    requires offset % BOUNDARY == 0 && n <= offset < n + BOUNDARY
    requires (offset + size + pad) % BOUNDARY == 0
    ensures (n + size + pad) % BOUNDARY == 0 <==> offset == n
  {
    var t := offset + size + pad;
    var d := offset - n;
    if offset != n {
      assert 0 < d < BOUNDARY;
      ModShift(t, d);
    }
  }

  lemma ModShift(t: int, d: int)
    requires t % BOUNDARY == 0 && 0 < d < BOUNDARY
    ensures (t - d) % BOUNDARY != 0
  {
    var q := t / BOUNDARY;
    assert t == BOUNDARY * q;
    assert t - d == BOUNDARY * (q - 1) + (BOUNDARY - d);
    ModUnique(t - d, BOUNDARY, q - 1, BOUNDARY - d);
  }

  // ---- the whole-image CRC ----

  /** The header of the file written with `image_crc32` on: the stage's
      header with slot 6 = (0, length, CRC) of the first assembly, resealed
      when `header_crc32` is truthy. */
  function ImageHeader(h2: Bytes, image: Bytes, seal: bool): (h: Bytes)
    requires |h2| == HEADER_SIZE && |image| < U32_LIMIT
    ensures |h| == HEADER_SIZE
  {
    var h3 := SetSlot(h2, SLOT_IMAGE, 0, |image|, Crc32(image));
    if seal then SealBytes(h3) else h3
  }

  /** What the file written with `image_crc32` on holds, relative to the
      first assembly `image`: the first assembly after its header, followed
      by the section and its padding a second time; slot 6 = (0, length, CRC)
      of the first assembly; every other slot as in the first assembly; the
      header sealed when `header_crc32` is truthy and its CRC field carried
      over otherwise. */
  predicate ImageRecorded(image: Bytes, section: Bytes, pad: Bytes, seal: bool, out: Bytes)
    requires |image| >= HEADER_SIZE
  {
    && |out| == |image| + |section| + |pad|
    && out[HEADER_SIZE..] == image[HEADER_SIZE..] + section + pad
    && ReadSlot(out, SLOT_IMAGE) == Slot(0, |image|, Crc32(image))
    && (forall j :: 0 <= j < SLOT_COUNT && j != SLOT_IMAGE ==> ReadSlot(out, j) == ReadSlot(image, j))
    && (seal ==> IsSealed(out[..HEADER_SIZE]))
    && (!seal ==> out[CRC_OFFSET..HEADER_SIZE] == image[CRC_OFFSET..HEADER_SIZE])
  }

  lemma ImageLaidOut(h2: Bytes, image: Bytes, section: Bytes, pad: Bytes, seal: bool)
    requires |h2| == HEADER_SIZE && HEADER_SIZE <= |image| < U32_LIMIT && image[..HEADER_SIZE] == h2
    ensures ImageRecorded(image, section, pad, seal, ImageHeader(h2, image, seal) + (image[HEADER_SIZE..] + section + pad))
  {
    var h3 := SetSlot(h2, SLOT_IMAGE, 0, |image|, Crc32(image));
    var h4 := ImageHeader(h2, image, seal);
    var rest := image[HEADER_SIZE..] + section + pad;
    var out := h4 + rest;
    AfterHeader(h4, rest);
    ImageHeaderBytes(h2, image, seal);
    assert out[..CRC_OFFSET] == h3[..CRC_OFFSET] by {
      assert out[..CRC_OFFSET] == out[..HEADER_SIZE][..CRC_OFFSET];
    }
    assert image[..CRC_OFFSET] == h2[..CRC_OFFSET] by {
      assert image[..CRC_OFFSET] == image[..HEADER_SIZE][..CRC_OFFSET];
    }
    ImageSlots(h2, image, out);
    if !seal {
      assert out[CRC_OFFSET..HEADER_SIZE] == h4[CRC_OFFSET..] by {
        assert out[CRC_OFFSET..HEADER_SIZE] == out[..HEADER_SIZE][CRC_OFFSET..];
      }
      assert image[CRC_OFFSET..HEADER_SIZE] == h2[CRC_OFFSET..] by {
        assert image[CRC_OFFSET..HEADER_SIZE] == image[..HEADER_SIZE][CRC_OFFSET..];
      }
    }
  }

  /** On a full header the slot-6 step produces `ImageHeader`. */
  lemma ImageStepValue(h2: Bytes, image: Bytes, seal: bool)
    requires |h2| == HEADER_SIZE && |image| < U32_LIMIT
    ensures ImageStep(h2, image, seal) == Success(ImageHeader(h2, image, seal))
  {
  }

  /** The image header differs from the stage's header in slot 6 and, when
      resealed, in the CRC field. */
  lemma ImageHeaderBytes(h2: Bytes, image: Bytes, seal: bool)
    requires |h2| == HEADER_SIZE && |image| < U32_LIMIT
    ensures var h3 := SetSlot(h2, SLOT_IMAGE, 0, |image|, Crc32(image)); var h4 := ImageHeader(h2, image, seal);
      && h4[..CRC_OFFSET] == h3[..CRC_OFFSET]
      && (seal ==> IsSealed(h4))
      && (!seal ==> h4[CRC_OFFSET..] == h2[CRC_OFFSET..])
  {
    var h3 := SetSlot(h2, SLOT_IMAGE, 0, |image|, Crc32(image));
    if !seal {
      assert h3[CRC_OFFSET..] == h2[CRC_OFFSET..];
    }
  }

  /** The slots of a buffer that agrees with the image header before the
      CRC field. */
  lemma ImageSlots(h2: Bytes, image: Bytes, out: Bytes)
    requires |h2| == HEADER_SIZE && HEADER_SIZE <= |image| < U32_LIMIT && |out| >= CRC_OFFSET
    requires image[..CRC_OFFSET] == h2[..CRC_OFFSET]
    requires out[..CRC_OFFSET] == SetSlot(h2, SLOT_IMAGE, 0, |image|, Crc32(image))[..CRC_OFFSET]
    ensures ReadSlot(out, SLOT_IMAGE) == Slot(0, |image|, Crc32(image))
    ensures forall j :: 0 <= j < SLOT_COUNT && j != SLOT_IMAGE ==> ReadSlot(out, j) == ReadSlot(image, j)
  {
    var crc := Crc32(image);
    var h3 := SetSlot(h2, SLOT_IMAGE, 0, |image|, crc);
    ReadSetSlot(h2, SLOT_IMAGE, 0, |image|, crc);
    SlotsBeforeCrc(out, h3, SLOT_IMAGE);
    forall j | 0 <= j < SLOT_COUNT && j != SLOT_IMAGE
      ensures ReadSlot(out, j) == ReadSlot(image, j)
    {
      ReadOtherSlot(h2, SLOT_IMAGE, j, 0, |image|, crc);
      SlotsBeforeCrc(out, h3, j);
      SlotsBeforeCrc(image, h2, j);
    }
  }

  /** With `image_crc32` on, the stage's output is the image header followed
      by the first assembly after its header and the section and padding
      once more. */
  lemma ImageValue(cart: Bytes, slot: nat, section: Bytes, hash: HashSpec)
    requires |cart| >= HEADER_SIZE && Truthy(hash.imageCrc32)
    requires AppendSpec(cart, slot, section, hash).Success?
    ensures AppendSpec(cart, slot, section, WithoutImageCrc(hash)).Success?
    ensures var h2 := SectionHeader(cart, slot, section, hash).value;
      var image := AppendSpec(cart, slot, section, WithoutImageCrc(hash)).value;
      && |h2| == HEADER_SIZE && HEADER_SIZE <= |image| < U32_LIMIT && image[..HEADER_SIZE] == h2
      && AppendSpec(cart, slot, section, hash).value ==
           ImageHeader(h2, image, Truthy(hash.headerCrc32)) + (image[HEADER_SIZE..] + section + Padding(SectionOffset(cart), |section|))
  {
    var plain := WithoutImageCrc(hash);
    assert SectionHeader(cart, slot, section, plain) == SectionHeader(cart, slot, section, hash);
    var h2 := SectionHeader(cart, slot, section, hash).value;
    AfterHeader(h2, cart[HEADER_SIZE..] + section + Padding(SectionOffset(cart), |section|));
  }

  /** With `image_crc32` on, the file holds what `ImageRecorded` says about
      the image the stage would have written with the switch off (the first
      assembly). So when the section is not empty, the length recorded in
      slot 6 is shorter than the file. */
  lemma AppendImage(cart: Bytes, slot: nat, section: Bytes, hash: HashSpec)
    requires |cart| >= HEADER_SIZE && Truthy(hash.imageCrc32)
    requires AppendSpec(cart, slot, section, hash).Success?
    ensures AppendSpec(cart, slot, section, WithoutImageCrc(hash)).Success?
    ensures ImageRecorded(AppendSpec(cart, slot, section, WithoutImageCrc(hash)).value, section,
                          Padding(SectionOffset(cart), |section|), Truthy(hash.headerCrc32),
                          AppendSpec(cart, slot, section, hash).value)
    ensures section != [] ==>
              ReadSlot(AppendSpec(cart, slot, section, hash).value, SLOT_IMAGE).size < |AppendSpec(cart, slot, section, hash).value|
  {
    ImageValue(cart, slot, section, hash);
    var image := AppendSpec(cart, slot, section, WithoutImageCrc(hash)).value;
    ImageLaidOut(SectionHeader(cart, slot, section, hash).value, image, section,
                 Padding(SectionOffset(cart), |section|), Truthy(hash.headerCrc32));
  }

  /** A stage never shortens the image and leaves everything after the
      header in place: the section and its padding come after it. */
  lemma AppendExtends(cart: Bytes, slot: nat, section: Bytes, hash: HashSpec)
    requires |cart| >= HEADER_SIZE && AppendSpec(cart, slot, section, hash).Success?
    ensures var out := AppendSpec(cart, slot, section, hash).value;
      |out| >= |cart| + |section| && out[HEADER_SIZE..|cart|] == cart[HEADER_SIZE..]
  {
    var out := AppendSpec(cart, slot, section, hash).value;
    if Truthy(hash.imageCrc32) {
      AppendImage(cart, slot, section, hash);
      var image := AppendSpec(cart, slot, section, WithoutImageCrc(hash)).value;
      AppendPlain(cart, slot, section, WithoutImageCrc(hash));
      KeepsHead(out, image, section, Padding(SectionOffset(cart), |section|), HEADER_SIZE, |cart|);
    } else {
      AppendPlain(cart, slot, section, hash);
    }
  }

  lemma KeepsHead(out: Bytes, image: Bytes, a: Bytes, b: Bytes, lo: nat, hi: nat)
    requires lo <= hi <= |image| && lo <= |out| && out[lo..] == image[lo..] + a + b
    ensures hi <= |out| && out[lo..hi] == image[lo..hi]
  {
    assert out[lo..hi] == out[lo..][..hi - lo];
    assert image[lo..hi] == (image[lo..] + a + b)[..hi - lo];
  }

  // ---- failures ----

  /** When the header step fails: an index outside the table first; then
      `struct.error` when the image is too short for the slot, the offset
      does not fit in a u64 or the size in a u32; then the reseal's length
      error when `header_crc32` is truthy and the image is shorter than a
      header. */
  lemma SectionHeaderOutcome(cart: Bytes, slot: int, section: Bytes, hash: HashSpec)
    ensures !(0 <= slot < SLOT_COUNT) ==> SectionHeader(cart, slot, section, hash) == Failure(InvalidSlotIndex(slot))
    ensures 0 <= slot < SLOT_COUNT ==>
      (SectionHeader(cart, slot, section, hash).Success? <==>
        && SlotOffset(slot) + SLOT_SIZE <= |cart| && SectionOffset(cart) < U64_LIMIT && |section| < U32_LIMIT
        && (Truthy(hash.headerCrc32) ==> |cart| >= HEADER_SIZE))
    ensures 0 <= slot < SLOT_COUNT && SectionHeader(cart, slot, section, hash).Failure? ==>
      var e := SectionHeader(cart, slot, section, hash).error;
      e == StructError || (e == HeaderLengthMismatch && |cart| < HEADER_SIZE)
    ensures SectionHeader(cart, slot, section, hash).Success? ==>
      |SectionHeader(cart, slot, section, hash).value| == |Take(cart, HEADER_SIZE)|
  {
  }

  /** The whole stage fails as its header step does, or, with `image_crc32`
      on, with `struct.error` when the header is too short for slot 6 or
      the first assembly's length does not fit in a u32. */
  lemma AppendOutcome(cart: Bytes, slot: int, section: Bytes, hash: HashSpec)
    ensures SectionHeader(cart, slot, section, hash).Failure? ==>
              AppendSpec(cart, slot, section, hash) == Failure(SectionHeader(cart, slot, section, hash).error)
    ensures SectionHeader(cart, slot, section, hash).Success? ==>
      var pad := Padding(SectionOffset(cart), |section|);
      (AppendSpec(cart, slot, section, hash).Success? <==>
        (Truthy(hash.imageCrc32) ==> SlotOffset(SLOT_IMAGE) + SLOT_SIZE <= |cart| && |cart| + |section| + |pad| < U32_LIMIT))
    ensures SectionHeader(cart, slot, section, hash).Success? && AppendSpec(cart, slot, section, hash).Failure? ==>
              AppendSpec(cart, slot, section, hash).error == StructError
  {
    var h := SectionHeader(cart, slot, section, hash);
    if h.Success? {
      SectionHeaderOutcome(cart, slot, section, hash);
      var image := Assembled(cart, h.value, section);
      assert |image| == |cart| + |section| + |Padding(SectionOffset(cart), |section|)|;
      ImageStepOutcome(h.value, image, Truthy(hash.headerCrc32));
    }
  }

  /** The slot-6 write fails only with `struct.error`, when the header is too
      short for slot 6 or the length does not fit in a u32; the reseal after
      it cannot fail once the first reseal passed. */
  lemma ImageStepOutcome(h2: Bytes, image: Bytes, seal: bool)
    requires seal ==> |h2| == HEADER_SIZE
    ensures var w := ImageStep(h2, image, seal);
      && (w.Success? <==> SlotOffset(SLOT_IMAGE) + SLOT_SIZE <= |h2| && |image| < U32_LIMIT)
      && (w.Failure? ==> w.error == StructError)
  {
  }
}
