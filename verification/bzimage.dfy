/** `patch_bzimage`: swapping the public keys inside the initramfs that is
    embedded, xz-compressed, in an EFI-stub Linux kernel image (bzImage).

    The compressed payload starts at the PE `.text` section's raw-data offset
    plus the setup header's payload offset, and the setup header's payload
    length counts a trailing 4-byte little-endian field holding the
    decompressed size. The new payload must fit in the old one's space; it
    is padded with zeros so that nothing after it moves. */
module BzImage {
  import opened Wrappers
  import opened Errors
  import opened Bytes
  import opened Replace
  import opened Keys
  import opened Cpio

  /** Where the PE header keeps the `.text` section's raw-data offset. */
  const PE_TEXT_SECTION_OFFSET: nat := 414
  /** Where the setup header keeps the payload offset (relative to `.text`). */
  const HEADER_PAYLOAD_OFFSET: nat := 584
  /** Where the setup header keeps the payload length. */
  const HEADER_PAYLOAD_LENGTH_OFFSET: nat := HEADER_PAYLOAD_OFFSET + 4
  /** The first byte after the last header field read. */
  const HEADER_END: nat := HEADER_PAYLOAD_LENGTH_OFFSET + 4
  /** The decompressed-size field (`z_output_len`) closing the payload. */
  const SIZE_FIELD_LENGTH: nat := 4

  /** `lzma.decompress`, which may reject its input, and `lzma.compress` with
      the x86 BCJ and LZMA2 (preset 8, 32 MiB dictionary) filters. Nothing is
      assumed about either. */
  type Decompressor = seq<Byte> -> Option<seq<Byte>>
  type Compressor = seq<Byte> -> seq<Byte>

  /** Where the compressed kernel is: its absolute offset, its length without
      the size field (negative when the header's length is below 4), and the
      decompressed size the size field announces. */
  datatype Layout = Layout(payloadOffset: nat, payloadLength: int, zOutputLen: nat)

  /** The value of the little-endian 32-bit header field at `offset`. */
  function Field(data: seq<Byte>, offset: nat): (v: nat)
    requires offset + 4 <= |data|
    ensures v < U32_LIMIT
  {
    DecodeU32(data[offset..offset + 4])
  }

  /** Reads the three header fields and the size field after the payload. */
  function LocatePayload(data: seq<Byte>): (r: Result<Layout, PatchError>)
    ensures r.Err? ==> r.error == StructError
    ensures |data| < HEADER_END ==> r.Err?
    ensures r.Ok? ==> HEADER_END <= |data|
    ensures r.Ok? ==> r.value.payloadOffset
                      == Field(data, PE_TEXT_SECTION_OFFSET) + Field(data, HEADER_PAYLOAD_OFFSET)
    ensures r.Ok? ==> r.value.payloadLength == Field(data, HEADER_PAYLOAD_LENGTH_OFFSET) - SIZE_FIELD_LENGTH
    ensures r.Ok? ==> Fits(data, r.value)
    ensures HEADER_END <= |data| && Field(data, HEADER_PAYLOAD_LENGTH_OFFSET) >= SIZE_FIELD_LENGTH ==>
              (r.Ok? <==> Field(data, PE_TEXT_SECTION_OFFSET) + Field(data, HEADER_PAYLOAD_OFFSET)
                          + Field(data, HEADER_PAYLOAD_LENGTH_OFFSET) <= |data|)
  {
    var textSection :- UnpackU32(data, PE_TEXT_SECTION_OFFSET);
    var relativeOffset :- UnpackU32(data, HEADER_PAYLOAD_OFFSET);
    var lengthField :- UnpackU32(data, HEADER_PAYLOAD_LENGTH_OFFSET);
    var payloadOffset := textSection + relativeOffset;
    var payloadLength := lengthField - SIZE_FIELD_LENGTH;
    var zOutputLen :- UnpackU32(data, payloadOffset + payloadLength);
    Ok(Layout(payloadOffset, payloadLength, zOutputLen))
  }

  /** A layout that fits its container: the header fields lie inside it,
      the length is a 32-bit field value less 4, and a payload of
      non-negative length lies inside it followed by its size field. Every
      layout `LocatePayload` returns fits. */
  predicate Fits(data: seq<Byte>, layout: Layout) {
    var end := layout.payloadOffset + layout.payloadLength;
    && HEADER_END <= |data|
    && layout.payloadLength + SIZE_FIELD_LENGTH < U32_LIMIT
    && layout.zOutputLen < U32_LIMIT
    && (layout.payloadLength >= 0 ==>
          end + SIZE_FIELD_LENGTH <= |data| && EncodeU32(layout.zOutputLen) == data[end..end + SIZE_FIELD_LENGTH])
  }

  /** The compressed payload, `data[offset:offset+length]` as Python slices it. */
  function PayloadBytes(data: seq<Byte>, layout: Layout): (p: seq<Byte>)
    ensures Fits(data, layout) && layout.payloadLength >= 0 ==>
              p == data[layout.payloadOffset..layout.payloadOffset + layout.payloadLength]
  {
    Slice(data, layout.payloadOffset, layout.payloadOffset + layout.payloadLength)
  }

  /** Decompresses the payload and checks its length against the size field. */
  function ExtractImage(data: seq<Byte>, layout: Layout, decompress: Decompressor): (r: Result<seq<Byte>, PatchError>)
    ensures decompress(PayloadBytes(data, layout)).None? ==> r == Err(LzmaError)
    ensures decompress(PayloadBytes(data, layout)).Some? ==>
              (r.Ok? <==> |decompress(PayloadBytes(data, layout)).value| == layout.zOutputLen)
    ensures r.Ok? ==> decompress(PayloadBytes(data, layout)) == Some(r.value)
    ensures r.Ok? ==> |r.value| == layout.zOutputLen
    ensures r.Err? ==> r.error in {LzmaError, SizeMismatch}
  {
    match decompress(PayloadBytes(data, layout))
    case None => Err(LzmaError)
    case Some(image) =>
      if layout.zOutputLen != |image| then Err(SizeMismatch) else Ok(image)
  }

  /** The archive located at `span` is the first occurrence of its own bytes:
      any earlier occurrence would start with an earlier header magic. */
  lemma ArchiveIsFirstOccurrence(image: seq<Byte>, span: Span)
    requires Framed(image, span)
    ensures IsFirstAt(image, Archive(image, span), span.start)
  {
    var a := Archive(image, span);
    assert OccursAt(image, a, span.start);
    forall j | 0 <= j < span.start ensures !OccursAt(image, a, j) {
      if OccursAt(image, a, j) {
        OccursAtPrefix(image, a, j, |HeaderMagic|);
        assert false;
      }
    }
  }

  /** Substitutes the keys inside the archive, then puts the patched archive
      back with a whole-image `replace` of the old archive bytes. The first
      match is the archive itself; later copies of the same bytes, if any,
      are rewritten too. */
  function PatchImage(image: seq<Byte>, span: Span, pairs: seq<KeyPair>): (r: seq<Byte>)
    requires Framed(image, span)
    ensures var a := Archive(image, span);
            var patched := Substitute(a, pairs).data;
            r == image[..span.start] + patched + ReplaceFrom(image, a, patched, span.end)
    ensures SameLengthKeys(pairs) ==> |r| == |image|
  {
    var archive := Archive(image, span);
    var patched := Substitute(archive, pairs).data;
    ReplaceFromArchiveStart(image, span, patched);
    ReplaceSameLength(image, archive, patched);
    ReplaceAll(image, archive, patched)
  }

  /** The image-wide `replace` of the archive bytes first rewrites the
      archive itself. */
  lemma ReplaceFromArchiveStart(image: seq<Byte>, span: Span, patched: seq<Byte>)
    requires Framed(image, span)
    ensures var a := Archive(image, span);
            ReplaceAll(image, a, patched) == image[..span.start] + patched + ReplaceFrom(image, a, patched, span.end)
  {
    var a := Archive(image, span);
    ArchiveIsFirstOccurrence(image, span);
    ReplaceAtFirst(image, a, patched, span.start, span.end);
  }

  /** The old payload followed by its size field, the bytes to be replaced. */
  function OldBlock(data: seq<Byte>, layout: Layout): (b: seq<Byte>)
    requires layout.zOutputLen < U32_LIMIT
    ensures Fits(data, layout) && layout.payloadLength >= 0 ==>
              b == data[layout.payloadOffset..layout.payloadOffset + layout.payloadLength + SIZE_FIELD_LENGTH]
  {
    PayloadBytes(data, layout) + EncodeU32(layout.zOutputLen)
  }

  /** The new payload: compressed bytes, the unchanged size field, then zero
      padding up to `width`. */
  function NewBlock(compressed: seq<Byte>, zOutputLen: nat, width: nat): (b: seq<Byte>)
    requires zOutputLen < U32_LIMIT
    requires |compressed| + SIZE_FIELD_LENGTH <= width
    ensures |b| == width
    ensures b[..|compressed|] == compressed
    ensures UnpackU32(b, |compressed|) == Ok(zOutputLen)
    ensures forall i :: |compressed| + SIZE_FIELD_LENGTH <= i < width ==> b[i] == 0
  {
    var sized := compressed + EncodeU32(zOutputLen);
    assert sized[..|compressed|] == compressed;
    assert sized[|compressed|..|compressed| + 4] == EncodeU32(zOutputLen);
    var b := LJust(sized, width);
    assert b[..|sized|] == sized;
    assert b[|compressed|..|compressed| + 4] == sized[|compressed|..|compressed| + 4];
    assert b[..|compressed|] == sized[..|compressed|];
    b
  }

  /** `struct.pack_into` of the new payload length (size field included). */
  function RewriteLengthField(data: seq<Byte>, compressedLength: nat): (r: seq<Byte>)
    requires HEADER_END <= |data|
    requires compressedLength + SIZE_FIELD_LENGTH < U32_LIMIT
    ensures |r| == |data|
    ensures UnpackU32(r, HEADER_PAYLOAD_LENGTH_OFFSET) == Ok(compressedLength + SIZE_FIELD_LENGTH)
    ensures forall i :: 0 <= i < |data| && !(HEADER_PAYLOAD_LENGTH_OFFSET <= i < HEADER_END) ==> r[i] == data[i]
  {
    PackU32(data, HEADER_PAYLOAD_LENGTH_OFFSET, compressedLength + SIZE_FIELD_LENGTH)
  }

  /** Recompresses the patched image, enforces the size budget, rewrites the
      length field and replaces the old payload (with size field) by the
      padded new one, wherever the old bytes occur in the container. */
  function Repack(data: seq<Byte>, layout: Layout, newImage: seq<Byte>, compress: Compressor): (r: Result<seq<Byte>, PatchError>)
    requires Fits(data, layout)
    ensures r.Err? <==> |compress(newImage)| > layout.payloadLength
    ensures r.Err? ==> r.error == PayloadTooBig
    ensures r.Ok? ==> |r.value| == |data|
  {
    var compressed := compress(newImage);
    if |compressed| > layout.payloadLength then Err(PayloadTooBig)
    else
      var header := RewriteLengthField(data, |compressed|);
      var oldBlock := OldBlock(data, layout);
      var newBlock := NewBlock(compressed, layout.zOutputLen, |oldBlock|);
      ReplaceSameLength(header, oldBlock, newBlock);
      Ok(ReplaceAll(header, oldBlock, newBlock))
  }

  /** The whole of `patch_bzimage`. */
  function PatchBzImage(data: seq<Byte>, pairs: seq<KeyPair>, decompress: Decompressor, compress: Compressor)
    : (r: Result<seq<Byte>, PatchError>)
    ensures |data| < HEADER_END ==> r == Err(StructError)
    ensures HEADER_END <= |data| && Field(data, HEADER_PAYLOAD_LENGTH_OFFSET) < SIZE_FIELD_LENGTH ==> r.Err?
    ensures r.Ok? ==> |r.value| == |data|
  {
    var layout :- LocatePayload(data);
    var image :- ExtractImage(data, layout, decompress);
    var span :- LocateArchive(image);
    var newImage := PatchImage(image, span, pairs);
    Repack(data, layout, newImage, compress)
  }

  /** A decompressed image whose length differs from the size field stops
      the patch with `SizeMismatch`, and no container is produced. */
  lemma SizeMismatchFails(data: seq<Byte>, pairs: seq<KeyPair>, decompress: Decompressor, compress: Compressor,
                          layout: Layout, image: seq<Byte>)
    requires LocatePayload(data) == Ok(layout)
    requires decompress(PayloadBytes(data, layout)) == Some(image)
    requires |image| != layout.zOutputLen
    ensures PatchBzImage(data, pairs, decompress, compress) == Err(SizeMismatch)
  {
  }

  /** A recompressed image longer than the old payload stops the patch with
      `PayloadTooBig`; one that fits always yields a container. */
  lemma BudgetDecidesOutcome(data: seq<Byte>, pairs: seq<KeyPair>, decompress: Decompressor, compress: Compressor,
                             layout: Layout, image: seq<Byte>, span: Span)
    requires LocatePayload(data) == Ok(layout)
    requires ExtractImage(data, layout, decompress) == Ok(image)
    requires LocateArchive(image) == Ok(span)
    ensures var compressed := compress(PatchImage(image, span, pairs));
            var r := PatchBzImage(data, pairs, decompress, compress);
            (|compressed| > layout.payloadLength <==> r == Err(PayloadTooBig))
            && (|compressed| <= layout.payloadLength <==> r.Ok?)
  {
  }

  /** The container `patch_bzimage` produces, end to end: when the
      recompressed image fits and the old payload block sits only at the
      payload offset, clear of the length field, the routine succeeds. Its
      length field then reads the new payload length plus 4, the payload span
      holds the new payload, and every other byte is the input's. */
  lemma PatchedContainer(data: seq<Byte>, pairs: seq<KeyPair>, decompress: Decompressor, compress: Compressor,
                         layout: Layout, image: seq<Byte>, span: Span)
    requires LocatePayload(data) == Ok(layout)
    requires ExtractImage(data, layout, decompress) == Ok(image)
    requires LocateArchive(image) == Ok(span)
    requires |compress(PatchImage(image, span, pairs))| <= layout.payloadLength
    requires var w := layout.payloadLength + SIZE_FIELD_LENGTH;
             layout.payloadOffset + w <= HEADER_PAYLOAD_LENGTH_OFFSET || HEADER_END <= layout.payloadOffset
    requires var header := RewriteLengthField(data, |compress(PatchImage(image, span, pairs))|);
             forall j :: OccursAt(header, OldBlock(data, layout), j) ==> j == layout.payloadOffset
    ensures var c := compress(PatchImage(image, span, pairs));
            var po, w := layout.payloadOffset, layout.payloadLength + SIZE_FIELD_LENGTH;
            var r := PatchBzImage(data, pairs, decompress, compress);
            && r.Ok?
            && |r.value| == |data|
            && UnpackU32(r.value, HEADER_PAYLOAD_LENGTH_OFFSET) == Ok(|c| + SIZE_FIELD_LENGTH)
            && r.value[po..po + w] == NewBlock(c, layout.zOutputLen, w)
            && forall i :: (0 <= i < |data| && !(po <= i < po + w) && !(HEADER_PAYLOAD_LENGTH_OFFSET <= i < HEADER_END))
                           ==> r.value[i] == data[i]
  {
    var newImage := PatchImage(image, span, pairs);
    assert PatchBzImage(data, pairs, decompress, compress) == Repack(data, layout, newImage, compress);
    RepackIsSplice(data, layout, newImage, compress);
    SplicedContainer(data, layout, compress(newImage));
  }

  /** When no old key occurs in the archive, `patch_bzimage` repacks the
      decompressed image unchanged: its outcome is that of recompressing the
      image it extracted. */
  lemma UnmatchedKeysRepackImage(data: seq<Byte>, pairs: seq<KeyPair>, decompress: Decompressor, compress: Compressor,
                                 layout: Layout, image: seq<Byte>, span: Span)
    requires LocatePayload(data) == Ok(layout)
    requires ExtractImage(data, layout, decompress) == Ok(image)
    requires LocateArchive(image) == Ok(span)
    requires forall k :: 0 <= k < |pairs| ==> !Occurs(Archive(image, span), pairs[k].oldKey)
    ensures PatchBzImage(data, pairs, decompress, compress) == Repack(data, layout, image, compress)
  {
    NoKeyLeavesImage(image, span, pairs);
  }

  /** The decompressed-size field copied into the new payload stays correct:
      with keys of matching lengths the patched image has exactly the length
      the field announces. */
  lemma SizeFieldStaysAccurate(data: seq<Byte>, layout: Layout, decompress: Decompressor,
                               image: seq<Byte>, span: Span, pairs: seq<KeyPair>)
    requires LocatePayload(data) == Ok(layout)
    requires ExtractImage(data, layout, decompress) == Ok(image)
    requires Framed(image, span)
    requires SameLengthKeys(pairs)
    ensures |PatchImage(image, span, pairs)| == layout.zOutputLen
  {
  }

  /** When none of the old keys occurs in the archive, the image handed to
      the compressor is the decompressed image itself. */
  lemma NoKeyLeavesImage(image: seq<Byte>, span: Span, pairs: seq<KeyPair>)
    requires Framed(image, span)
    requires forall k :: 0 <= k < |pairs| ==> !Occurs(Archive(image, span), pairs[k].oldKey)
    ensures PatchImage(image, span, pairs) == image
  {
    var a := Archive(image, span);
    SubstituteWithoutKeys(a, pairs);
    ReplaceBySelf(image, a);
  }

  /** When the archive's bytes occur in the image only where the archive
      is, the image-wide `replace` is a splice: only the archive span
      changes, and it now holds the substituted archive. */
  lemma PatchImageIsSplice(image: seq<Byte>, span: Span, pairs: seq<KeyPair>)
    requires Framed(image, span)
    requires forall j :: OccursAt(image, Archive(image, span), j) ==> j == span.start
    ensures PatchImage(image, span, pairs)
            == image[..span.start] + Substitute(Archive(image, span), pairs).data + image[span.end..]
  {
    var a := Archive(image, span);
    assert OccursAt(image, a, span.start);
    ReplaceUniqueIsSplice(image, a, Substitute(a, pairs).data, span.start);
  }

  /** When the old payload with its size field occurs in the container only
      at the payload offset, and the payload does not overlap the length
      field, the container-wide `replace` is a splice of the padded new
      payload at the payload offset. */
  lemma RepackIsSplice(data: seq<Byte>, layout: Layout, newImage: seq<Byte>, compress: Compressor)
    requires Fits(data, layout)
    requires |compress(newImage)| <= layout.payloadLength
    requires var w := layout.payloadLength + SIZE_FIELD_LENGTH;
             layout.payloadOffset + w <= HEADER_PAYLOAD_LENGTH_OFFSET || HEADER_END <= layout.payloadOffset
    requires forall j :: OccursAt(RewriteLengthField(data, |compress(newImage)|), OldBlock(data, layout), j) ==>
                         j == layout.payloadOffset
    ensures var c := compress(newImage);
            var w := layout.payloadLength + SIZE_FIELD_LENGTH;
            Repack(data, layout, newImage, compress)
            == Ok(Splice(RewriteLengthField(data, |c|), layout.payloadOffset, NewBlock(c, layout.zOutputLen, w)))
  {
    var c := compress(newImage);
    var w := layout.payloadLength + SIZE_FIELD_LENGTH;
    var header := RewriteLengthField(data, |c|);
    OldBlockSurvivesRewrite(data, layout, |c|);
    var ob := OldBlock(data, layout);
    assert |ob| == w;
    var nb := NewBlock(c, layout.zOutputLen, w);
    assert OccursAt(header, ob, layout.payloadOffset);
    ReplaceUniqueIsSplice(header, ob, nb, layout.payloadOffset);
    assert ReplaceAll(header, ob, nb) == Splice(header, layout.payloadOffset, nb);
    RepackWithinBudget(data, layout, newImage, compress);
  }

  /** What the spliced container holds: the length field now reads the new
      length plus 4, the payload span holds the new payload (compressed
      bytes, old size field, zeros), and every other byte is unchanged. */
  lemma SplicedContainer(data: seq<Byte>, layout: Layout, c: seq<Byte>)
    requires Fits(data, layout)
    requires |c| <= layout.payloadLength
    requires var w := layout.payloadLength + SIZE_FIELD_LENGTH;
             layout.payloadOffset + w <= HEADER_PAYLOAD_LENGTH_OFFSET || HEADER_END <= layout.payloadOffset
    ensures var po, w := layout.payloadOffset, layout.payloadLength + SIZE_FIELD_LENGTH;
            var out := Splice(RewriteLengthField(data, |c|), po, NewBlock(c, layout.zOutputLen, w));
            && |out| == |data|
            && UnpackU32(out, HEADER_PAYLOAD_LENGTH_OFFSET) == Ok(|c| + SIZE_FIELD_LENGTH)
            && out[po..po + w] == NewBlock(c, layout.zOutputLen, w)
            && forall i :: (0 <= i < |data| && !(po <= i < po + w) && !(HEADER_PAYLOAD_LENGTH_OFFSET <= i < HEADER_END))
                           ==> out[i] == data[i]
  {
    var po, w := layout.payloadOffset, layout.payloadLength + SIZE_FIELD_LENGTH;
    var header := RewriteLengthField(data, |c|);
    var out := Splice(header, po, NewBlock(c, layout.zOutputLen, w));
    AgreeOutside(out, header, po, w, HEADER_PAYLOAD_LENGTH_OFFSET, HEADER_END);
    UnpackSeesOnlyField(out, header, HEADER_PAYLOAD_LENGTH_OFFSET);
  }

  /** Within the budget, `Repack` is the `replace` of the old block by the
      padded new block in the container with the rewritten length field. */
  lemma RepackWithinBudget(data: seq<Byte>, layout: Layout, newImage: seq<Byte>, compress: Compressor)
    requires Fits(data, layout)
    requires |compress(newImage)| <= layout.payloadLength
    ensures var c := compress(newImage);
            var w := layout.payloadLength + SIZE_FIELD_LENGTH;
            Repack(data, layout, newImage, compress)
            == Ok(ReplaceAll(RewriteLengthField(data, |c|), OldBlock(data, layout), NewBlock(c, layout.zOutputLen, w)))
  {
    assert |PayloadBytes(data, layout)| == layout.payloadLength;
  }

  /** A payload clear of the length field is still in place after the field
      is rewritten. */
  lemma OldBlockSurvivesRewrite(data: seq<Byte>, layout: Layout, compressedLength: nat)
    requires Fits(data, layout)
    requires compressedLength <= layout.payloadLength
    requires var w := layout.payloadLength + SIZE_FIELD_LENGTH;
             layout.payloadOffset + w <= HEADER_PAYLOAD_LENGTH_OFFSET || HEADER_END <= layout.payloadOffset
    ensures OccursAt(RewriteLengthField(data, compressedLength), OldBlock(data, layout), layout.payloadOffset)
  {
    var po, w := layout.payloadOffset, layout.payloadLength + SIZE_FIELD_LENGTH;
    AgreeOutside(RewriteLengthField(data, compressedLength), data, HEADER_PAYLOAD_LENGTH_OFFSET, 4, po, po + w);
  }
}
