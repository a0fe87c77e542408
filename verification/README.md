# Key patching of an EFI-stub bzImage, modelled in Dafny

This project models `patch_bzimage`, the routine that swaps the vendor's
public keys inside the initramfs embedded in a MikroTik RouterOS kernel
image. It also models the key-substitution loop that `patch_squashfs` runs
over every file of an unpacked squashfs tree.

`patch_bzimage` works in six steps, and the model follows them:

- It reads three little-endian 32-bit header fields at offsets 414, 584
  and 588. These give the compressed payload's offset and length. The
  length field also counts a trailing 4-byte field holding the
  decompressed size (`z_output_len`).
- It decompresses the payload with LZMA and checks the result's length
  against `z_output_len`.
- It locates the cpio archive (SVR4 "new ASCII" format) inside the
  decompressed kernel. The archive runs from the first `07070100` header
  magic to the end of the first `TRAILER!!!\0\0\0\0` at or after it.
- It walks the key table in order. It replaces every occurrence of an old
  key in the archive, but only when that key occurs.
- It puts the patched archive back with a whole-image `bytes.replace`.
- It recompresses the image and checks that the result fits in the old
  payload. It writes the new length plus 4 into the header, pads the new
  payload with the old size field and zeros, and puts it in place with a
  whole-container `bytes.replace`.

Modules:

- `Wrappers` holds `Option` and `Result`.
- `Errors` holds the failure kinds: `struct.error`, `ValueError` from
  `index`, the LZMA error, and the two `assert`s.
- `Bytes` holds Python's `find`/`index`, slicing, `ljust`, and
  `'<I'` pack and unpack.
- `Replace` holds `bytes.replace` and `bytes.count`.
- `Keys` holds the key table and the substitution loop.
- `Cpio` holds the archive locator.
- `BzImage` holds the header layout, the repacking and the whole routine.

Bytes are the integer newtype `Byte` (0..255) and buffers are `seq<Byte>`.

`bytes.replace` is modelled exactly as Python defines it:

- It rewrites every occurrence, left to right, without overlaps.
- An empty old key inserts the new key before every byte and at the end.
  The loop does not exclude empty keys, so the model keeps this case.

Two facts about the substitution are shown by concrete inputs:

- Running it again on its own output is not always a no-op, even when no
  new key contains an old key (`Replace.ReplaceNotIdempotent`).
- Deleting a key can create a new occurrence of it
  (`Replace.DeletionCanReintroduce`).

## Model

| member | source | states |
|---|---|---|
| Bytes.Find | patch.py:24 | The result is the leftmost occurrence of the pattern. It is absent exactly when the pattern does not occur. An empty pattern is found at 0. |
| Bytes.Index | patch.py:24-26 | `bytes.index` succeeds exactly when the pattern occurs, returning its leftmost occurrence. Otherwise it fails with the `ValueError` kind. |
| Bytes.Slice | patch.py:18 | A Python slice never fails. In-range bounds give the plain subsequence, an inverted range gives the empty sequence, and the result is never longer than the input. |
| Bytes.LJust | patch.py:46 | `ljust(width, b'\0')` keeps the input as a prefix and fills the rest with zero bytes. The length is the larger of `width` and the input length. |
| Bytes.EncodeU32 | patch.py:44-45 | `struct.pack('<I', v)` gives four bytes whose little-endian value is `v`. |
| Bytes.EncodeDecodeU32 | patch.py:10-16 | Re-encoding a decoded 4-byte field gives back the same bytes, so a field is determined by its value. |
| Bytes.UnpackU32 | patch.py:10-16 | `unpack_from('<I')` succeeds exactly when four bytes are available at the offset. A negative offset counts from the end. The value is below 2^32 and encodes to the bytes read. A failure is `struct.error`. |
| Bytes.PackU32 | patch.py:42-43 | `pack_into('<I')` on a copy keeps the length and puts the encoding of the value at the offset. Every other byte is unchanged, and reading the field back yields the value. |
| Bytes.AgreeOutside | patch.py:43-47 | Two buffers that differ only inside one range agree on every range clear of it. |
| Replace.ReplaceFromSkips | patch.py:32 | From any position, `replace` keeps the bytes before the next occurrence, rewrites that occurrence, and resumes after it. |
| Replace.ReplaceLength | patch.py:32 | The length of `s.replace(old, new)` is `len(s) + s.count(old) * (len(new) - len(old))`. This covers the empty old key too. |
| Replace.InterleaveLength | patch.py:32 | With an empty old key, the new key is inserted `len(s) + 1` times. |
| Replace.ReplaceSameLength | patch.py:32 | Replacing a key by one of the same length never changes the length. |
| Replace.CountPositiveIffOccurs | patch.py:30-32 | `s.count(old) > 0` holds exactly when `old in s`. |
| Replace.ReplaceAbsent | patch.py:30-32 | When a non-empty old key does not occur, `replace` returns its input. |
| Replace.ReplaceBySelf | patch.py:32 | Replacing a key by itself changes nothing. This includes the empty key, which then inserts nothing. |
| Replace.ReplaceUnchangedIff | patch.py:30-32 | For a non-empty key, `replace` leaves the buffer unchanged exactly when the key is absent or equals its replacement. |
| Replace.ReplaceAtFirst | patch.py:33 | `replace` keeps everything before the leftmost occurrence and turns that occurrence into the new bytes. It then goes on scanning right after the occurrence. |
| Replace.ReplaceUniqueIsSplice | patch.py:33-47 | When the pattern occurs exactly once, `replace` is a splice of the new bytes over that occurrence. |
| Replace.UnmarkedPrefixIsKept | patch.py:32 | When the first `k` bytes of the scan from position `i` contain no byte of an inserted copy of the new key, those bytes are the input bytes `s[i..i+k]`, in order. |
| Replace.ResidualOccurrenceTouchesInsertion | patch.py:29-32 | With non-empty keys, every occurrence of the old key left in the result overlaps an inserted copy of the new key. No occurrence survives unless the new key reintroduces it. |
| Replace.DeletionCanReintroduce | patch.py:32 | Replacing "ab" by nothing in "aabb" gives "ab". With an empty new key, an occurrence can survive without overlapping any insertion. |
| Replace.ReplaceNotIdempotent | patch.py:29-32 | With old "ab" and new "ba", "aab" becomes "aba" and then "baa". Repeating the substitution can change the result, even though "ab" does not occur in "ba". |
| Keys.ApplyPair | patch.py:30-32 | One turn of the loop leaves the buffer unchanged when the old key is absent. It keeps the length when the two keys have equal lengths. |
| Keys.GuardOnlyReports | patch.py:30-32 | The `in` test does not change the bytes: the turn equals an unguarded `replace`. For an empty old key the test always passes. |
| Keys.Substitute | patch.py:29-32 | The loop reports one entry per table pair, with the first entry true exactly when that key occurs. It keeps the length for equal-length keys and leaves the buffer unchanged when nothing is reported. |
| Keys.SubstituteWithoutKeys | patch.py:29-32 | A table none of whose old keys occurs leaves the buffer unchanged and reports nothing. |
| Keys.SubstituteReports | patch.py:29-32 | Pair `k` is reported exactly when its old key occurs in the buffer that the pairs before it leave. |
| Keys.ReportedIffSomeKeyOccurs | patch.py:29-32 | Some pair is reported exactly when some old key occurs in the original buffer. |
| Keys.AppliedPairChanges | patch.py:30-32 | When the new key differs from the old one, a turn changes the buffer exactly when the old key occurs. An empty old key always occurs, and inserting a non-empty key always changes the buffer. |
| Keys.SubstituteKeys | patch.py:28-32 | The imperative loop computes the same buffer and the same reports as the table-order definition. It keeps the length for equal-length keys. |
| Keys.PatchFileContents | patch.py:61-65 | A file is written exactly when some old key of the table occurs in its original contents. The bytes written are the substituted contents, and an untouched file's contents would substitute to themselves. |
| Cpio.LocateArchive | patch.py:22-27 | Finding the archive fails with `ValueError` when the header magic is absent. Otherwise it succeeds exactly when a trailer follows the first header magic. The span starts at the first header magic and ends right after the first trailer at or after that start. |
| Cpio.ArchiveFrom | patch.py:25-27 | Once the header magic is at `first`, the trailer search succeeds exactly when a trailer occurs at or after `first`. The span then ends after the first such trailer. |
| Cpio.TrailerSearchInSuffix | patch.py:25-26 | The trailer index found in the suffix, shifted by `first`, is the first trailer at or after `first` in the whole image. |
| Cpio.Archive | patch.py:27 | The archive bytes start with `07070100` and end with `TRAILER!!!\0\0\0\0`. |
| BzImage.LocatePayload | patch.py:7-16 | Reading the header fails with `struct.error` on a container shorter than 592 bytes. When the length field is at least 4, it fails exactly when the size field lies outside the container. On success, the payload offset is field 414 plus field 584, the length is field 588 minus 4, and the layout fits the container. |
| BzImage.PayloadBytes | patch.py:18 | The compressed payload of a fitting layout is exactly `data[offset .. offset + length]`. |
| BzImage.ExtractImage | patch.py:19-21 | A decompressor failure is the LZMA error. Otherwise extraction succeeds exactly when the decompressed length equals `z_output_len`, and then returns the decompressed image. |
| BzImage.SizeMismatchFails | patch.py:19-21 | A decompressed length different from the size field makes the whole routine fail with the size-mismatch kind. |
| BzImage.ArchiveIsFirstOccurrence | patch.py:24-33 | The located archive's bytes first occur exactly at the archive's start, because an earlier copy would contain an earlier header magic. |
| BzImage.ReplaceFromArchiveStart | patch.py:33 | The image-wide `replace` keeps the image up to the archive and writes the patched archive there. It resumes scanning at the archive's end. |
| BzImage.PatchImage | patch.py:28-33 | The new image is the prefix, then the patched archive, then the rest of the image with any further copies of the old archive also replaced. With equal-length keys it has the image's length. |
| BzImage.SizeFieldStaysAccurate | patch.py:16-45 | With equal-length keys, the patched image still has the length that the copied size field announces. |
| BzImage.NoKeyLeavesImage | patch.py:29-33 | When no old key occurs in the archive, the image handed to the compressor is the decompressed image itself. |
| BzImage.PatchImageIsSplice | patch.py:33 | When the archive's bytes occur only at the archive, the new image is the old one with just the archive span replaced by the patched archive. |
| BzImage.OldBlock | patch.py:18-44 | The bytes to be replaced are the old payload followed by its size field, in place in the container. |
| BzImage.NewBlock | patch.py:45-46 | The new payload is the compressed bytes, then the size field, which reads back as `z_output_len`, then zeros. Its length is exactly the old payload plus size field. |
| BzImage.RewriteLengthField | patch.py:41-43 | The length field reads back as the new length plus 4. Every other byte of the container is unchanged and the length is kept. |
| BzImage.Repack | patch.py:34-47 | Repacking fails exactly when the recompressed payload is longer than the old one, with the size-budget kind. On success the container keeps its length. |
| BzImage.OldBlockSurvivesRewrite | patch.py:43-47 | When the payload does not overlap the length field, rewriting that field leaves the old block in place at the payload offset. |
| BzImage.RepackIsSplice | patch.py:42-47 | When the old block occurs only at the payload offset and clear of the length field, repacking splices the padded new payload at the payload offset. |
| BzImage.SplicedContainer | patch.py:42-47 | The spliced container keeps its length. Its length field reads the new length plus 4 and the payload span holds the new payload. All other bytes are unchanged. |
| BzImage.BudgetDecidesOutcome | patch.py:38-40 | Once extraction and the archive search succeed, the routine fails with the size-budget kind exactly when the recompressed image is too long. Otherwise it produces a container. |
| BzImage.PatchedContainer | patch.py:5-49 | When the recompressed image fits and the old payload block occurs only at the payload offset, clear of the length field, the whole routine succeeds. The output keeps the input's length, and its length field reads the new payload length plus 4. The payload span holds the compressed bytes, the old size field and zeros, and every other byte is the input's. |
| BzImage.UnmatchedKeysRepackImage | patch.py:28-47 | When no old key occurs in the archive, the routine's outcome is that of recompressing and repacking the decompressed image unchanged. |
| BzImage.PatchBzImage | patch.py:5-49 | The whole routine fails with `struct.error` on a container too short for the header. It fails whenever the length field is below 4. Any container it produces has the input's length. |

## Left out

- LZMA compression and decompression (patch.py:19, 34-37) are function-valued parameters. Nothing is assumed about what they compute: no round trip, no output size. Decompression may fail, and that is the LZMA error kind. Compression is taken never to fail: the model has no error kind for `lzma.compress` raising.
- All `print` output (patch.py:6, 14-15, 17, 20, 31, 39, 48, 63) is left out. The model keeps only the per-pair "applied" flags that decide the messages at lines 31 and 63.
- `run_shell_command` and the `unsquashfs`/`mksquashfs`/`rm` subprocess calls (patch.py:51-53, 82-94) are left out, because they are external processes.
- The directory walk and the file reads and writes of `patch_squashfs` (patch.py:56-60, 65) are filesystem I/O. Only the per-file decision is modelled: which bytes are written, and whether the file is written at all. The source writes the file again after every matching key; only the final contents are modelled.
- `patch_system_npk` and its package loading, signing, saving and error swallowing (patch.py:67-98) depend on a library that is not part of this model.
- Key loading from the environment, hex decoding and command-line dispatch (patch.py:95-110) are left out.
- The key table is a Python dict, which is walked in insertion order. It is modelled as a sequence of pairs in that order. The model does not require the old keys to be distinct, as a dict's keys always are.
- The two `assert`s (patch.py:21, 40) are modelled as failures. Running Python with `-O` would skip them, and that mode is not modelled.
- Python exceptions are modelled as `Err` values of one error kind each. The traceback and message text are not modelled.
- `Replace.ResidualOccurrenceTouchesInsertion` covers one `replace`, not the whole loop. A later pair's new key can reintroduce an earlier pair's old key.
