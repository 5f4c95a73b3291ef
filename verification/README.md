# jdvrif, modelled in Dafny

jdvrif hides a data file inside a JPEG cover image. The file is compressed
with zlib and sealed with a libsodium secretbox. The key, the nonce and the
file name go into a colour profile, behind a recovery PIN. That profile is
then stored in the image in one of two ways:

- as a run of APP2 "ICC_PROFILE" segments;
- for Bluesky, inside an EXIF APP1 template, a Photoshop APP13 segment and
  an XMP APP1 segment that carries the overflow as base64 text.

Recovery reverses these steps:

1. Find the program's signature.
2. Undo the Bluesky layout, or cut the image down to the profile.
3. Strip the 18-byte segment headers from the encrypted file.
4. Unlock the keys with the PIN.
5. Decrypt, with a PIN-attempt counter that destroys the image after too
   many failures.
6. Inflate.

The model also covers three older pieces of the repository:

- the fixed-key XOR cipher of jdvrif v1.2;
- the rotating-key cipher and segment eraser of the older jdvin/jdvout pair,
  together with their deflate level cascade;
- the posting script src/bsky/bsky_post.py. Its facet scanners, record-URI
  parser, MIME lookup, reply references, image upload rules and the field
  rules of `create_post` are modelled over the UTF-8 bytes of the post text.

Each source file has its own module (`Base64`, `BinaryIo`, `Segmentation`,
`Bluesky`, `BlueskyReassembly`, `Encryption`, `Embedding`, `HeaderStrip`,
`Recover`, `JpegUtils`, `PinInput`, `FileUtils`, `FileChecks`,
`DeflateLevel`, `EraseSegments`, `JdvrifV12`, `RotatingCipher`, `BskyScan`,
`BskyUri`, `BskyPost`). Two modules are shared by the rest: `Bytes` (byte
sequences and big-endian integers) and `Wrappers` (the `Result` and
`Option` types).

A C++ `throw` or `std::exit`, or a Python `raise`, becomes a `Failure`
carrying a module-specific error value. Undefined behaviour in the source
is an error of its own, such as `ReadPastEnd` or `SegmentPastEnd`, except
where "## Left out" says otherwise.

The main round trips are:

- `Base64.RoundTrip` and `Base64.DecodeEncode`;
- `BinaryIo.UpdateThenGet`;
- `HeaderStrip.StripUndoesSegmentation`;
- `BlueskyReassembly.BlueskyRoundTrip`;
- `Encryption.RestoreUndoesObfuscation` and `Encryption.PinUnlocksKeys`;
- `JdvrifV12.InsertThenExtract`, without profile headers;
- `RotatingCipher.EncryptThenDecrypt`;
- `BskyUri.AtUriRoundTrip` and `BskyUri.WebUrlRoundTrip`.

## Model

| member | source | states |
|---|---|---|
| Base64.CharValue | src/base64.cpp:39-56 | the decode table gives a value below 64 exactly for the 64 alphabet characters; `CharValueOfSextetChar` and `SextetCharOfCharValue` make it the inverse of the encode table of line 12 |
| Base64.Encode | src/base64.cpp:6-30 | the output is a whole number of quartets, empty exactly for empty input, one quartet for 1..3 bytes |
| Base64.EncodeLength | src/base64.cpp:9 | the output has ((n + 2) / 3) * 4 characters |
| Base64.EncodeAlphabet | src/base64.cpp:25-28 | every output character is in the alphabet, except '=' which appears only in the last two places |
| Base64.DecodeQuartet | src/base64.cpp:67-96 | a quartet fails with bad padding when only the fourth place is not '=' after a third '='; padding before the last quartet fails; otherwise it decodes exactly when every non-pad character is in the alphabet, to 3 bytes less one per '=' |
| Base64.AppendBase64AsBinary | src/base64.cpp:32-37 | an empty input or one whose length is not a multiple of 4 fails first; on success the destination is kept as a prefix and grows by 3 bytes per quartet, less the padding |
| Base64.DecodeEncode | src/base64.cpp:6-98 | decoding the quartets of an encoding gives back the data |
| Base64.RoundTrip | src/base64.cpp:6-98 | appending the decoding of Encode(d) to any destination gives destination + d, for non-empty d |
| Base64.EmptyDoesNotRoundTrip | src/base64.cpp:35-37 | the empty input encodes to nothing, and decoding nothing is refused |
| Base64.EncodeInjective | src/base64.cpp:6-30 | different data never share an encoding |
| Base64.Vectors | src/base64.cpp:17-29 | "f", "fo" and "foo" encode to "Zg==", "Zm8=" and "Zm9v" |
| Base64.DecodeVector | src/base64.cpp:60-97 | "Zm8=" appended to [1] gives [1, 'f', 'o'] |
| Base64.PaddingCheckedFirst | src/base64.cpp:71-76 | "Zm=!" fails on the padding rule before the bad character is looked at, and a padded quartet before the last fails |
| BinaryIo.Window | src/binary_io.cpp:9-11 | the searched part is all of the buffer when the limit is 0 or past the end, else its first `limit` bytes |
| BinaryIo.SearchSig | src/binary_io.cpp:8-17 | returns the first position where the signature occurs inside the window, or nothing exactly when it occurs nowhere there (an empty signature finds nothing) |
| BinaryIo.SearchSigFinds | src/binary_io.cpp:8-17 | the first occurrence that ends inside the window is the one found |
| BinaryIo.SearchSigMisses | src/binary_io.cpp:9-15 | an occurrence that ends past the limit is not found |
| BinaryIo.UpdateValue | src/binary_io.cpp:19-41 | fails out of range when index + length passes the end, then fails for a length other than 2, 4 or 8; otherwise writes value mod 256^length big-endian at the index and changes no other byte |
| BinaryIo.GetValue | src/binary_io.cpp:43-66 | the same two errors in the same order; otherwise reads the big-endian number stored in the field |
| BinaryIo.UpdateThenGet | src/binary_io.cpp:19-66 | reading back a field just written gives the value truncated to the field's width |
| BinaryIo.GetThenUpdate | src/binary_io.cpp:19-66 | writing back a value just read leaves the buffer unchanged |
| BinaryIo.GetValueReadsBE | src/binary_io.cpp:52-61 | the value read is the big-endian reading of the field's bytes |
| Segmentation.IccHeaderFields | src/segmentation.cpp:33-37 | an 18-byte segment header is the APP2 marker, the 16-bit length, "ICC_PROFILE", the 16-bit sequence number and 0x01, both numbers truncated to 16 bits |
| Segmentation.LastDataSizeFits | src/segmentation.cpp:16-22 | a profile too big for one segment needs at least one segment, and the last one carries 1..65519 data bytes, exactly the remainder when there is one |
| Segmentation.BuildMultiSegmentIcc | src/segmentation.cpp:8-81 | the builder with the corrected line-41 length field (the as-written one is `BuildMultiSegmentIccAsWritten`); its output is the SOI plus the data after the 20-byte prefix plus 18 bytes per segment |
| Segmentation.MultiSegmentHeaders | src/segmentation.cpp:45-65 | segment i starts at 2 + (i - 1) * 65537 with the i-th header |
| Segmentation.HeaderOfSegment | src/segmentation.cpp:46-63 | every segment but the last has length 65535 and the last has its data size + 16, with its sequence number i |
| Segmentation.MultiSegmentData | src/segmentation.cpp:24-70 | removing the headers gives back the profile after the first 20 bytes, with the segment count written big-endian at 0x2E0 and nothing else changed |
| Segmentation.AsWrittenAgreesUnlessShortRemainder | src/segmentation.cpp:20-41 | the builder as written and the corrected one agree whenever the remainder leaves a non-empty last segment |
| Segmentation.AsWrittenLastLengthWrong | src/segmentation.cpp:41-52 | for a 131054-byte profile the last segment carries 65515 bytes but the length field as written says 16; the corrected field says 65531 |
| Segmentation.BuildSingleSegmentIcc | src/segmentation.cpp:84-100 | the size fields at 0x04 and 0x16 receive the size minus 4 and minus 20, and no other byte changes; a profile shorter than 0x18 bytes is out of range |
| Segmentation.RedditPadding | src/segmentation.cpp:117-121 | the padding block is the 4-byte APP2 header and 8000 bytes, each in 33..126 |
| Segmentation.ApplyRedditPadding | src/segmentation.cpp:102-126 | the image keeps its bytes, then the padding, then the profile without its SOI, then the image's last two bytes |
| Segmentation.DropBlueskyAndReddit | src/segmentation.cpp:161-162 | removing index 5 and then index 2 leaves the entries other than the Bluesky and Reddit ones, in order |
| Segmentation.MultiSegmentSizeBound | src/segmentation.cpp:31 | the segmented profile is less than twice the original size, so it fits the size arithmetic |
| Segmentation.ProfileData | src/segmentation.cpp:138-149 | the profile fails only when it is too short for the size field at 0x2E2; otherwise it keeps its SOI and has its size minus 851 (size_t arithmetic) written there |
| Segmentation.SegmentDataFile | src/segmentation.cpp:128-175 | with the Reddit option the profile is placed behind the padding and only the Reddit entry is kept; otherwise the Bluesky and Reddit entries are dropped and the profile is merged in front of the image exactly when it is under 20 MiB |
| Segmentation.LimitsFor | src/segmentation.cpp:179-180 | finds the first limits row with the platform's name, or none exactly when no row has it |
| Segmentation.KeepCompatible | src/segmentation.cpp:178-187 | keeps exactly the platforms that are within their limits (or unlisted), and no others |
| Segmentation.FilterPlatforms | src/segmentation.cpp:177-195 | the result is never empty; it is the single "Unknown!" line exactly when nothing compatible is left |
| Segmentation.KeepCompatibleAppend | src/segmentation.cpp:178 | the filter works entry by entry: filtering a concatenation filters each part |
| Segmentation.KeepCompatibleIdempotent | src/segmentation.cpp:178 | filtering twice is filtering once |
| Segmentation.MastodonSegmentLimit | src/common.h:67-76 | Mastodon accepts 100 segments and not 101 |
| Segmentation.TwitterFirstSegmentLimit | src/common.h:67-76 | X-Twitter accepts a first segment of 10 KiB and not one byte more |
| Bluesky.SourceTemplatesValid | src/encryption.cpp:18-45 | the Photoshop, XMP head and XMP footer templates have the lengths, markers and size fields the layout relies on |
| Bluesky.PhotoshopFirstDataset | src/encryption.cpp:98-104 | the APP13 template keeps its bytes up to the first dataset size, which becomes min(32767, rest), followed by that many payload bytes |
| Bluesky.PhotoshopSecondDataset | src/encryption.cpp:108-119 | past 32767 bytes a second dataset follows: its marker, its 16-bit size min(32730, rest − 32767) and those bytes |
| Bluesky.PatchPhotoshop | src/encryption.cpp:170-178 | the segment size becomes the length minus 2 and the BIM section size that minus 28, 16-bit, and no other byte changes |
| Bluesky.XmpPart | src/encryption.cpp:135-149 | the XMP segment is its head template, the base64 text and the 92-byte footer |
| Bluesky.XmpPartSizeField | src/encryption.cpp:165-166 | its size field holds its length minus 2, truncated to 16 bits |
| Bluesky.XmpFits | src/encryption.cpp:132-153 | the XMP segment stays within 60033 bytes exactly when at most 44721 bytes remain for it |
| Bluesky.OverflowSegments | src/encryption.cpp:79-155 | the overflow segments fail with the Bluesky size error exactly when more than 32767 + 32730 + 44721 bytes remain after the EXIF part |
| Bluesky.PatchSizeFields | src/encryption.cpp:60-74 | the compressed-size field gets the payload size, the EXIF segment size field the payload plus segment size minus 4, the artist field that minus 140, and no other byte changes |
| Bluesky.InsertWhole | src/encryption.cpp:72-77 | a payload of at most 65027 bytes goes in whole at 0x1D1 behind the patched fields |
| Bluesky.InsertSplit | src/encryption.cpp:70-80 | a larger payload has its first 65027 bytes at 0x1D1, the segment's tail after them, then the overflow segments |
| Bluesky.BuildBlueskySegments | src/encryption.cpp:49-181 | fails exactly when the segment is shorter than 0x1D1 or the payload too large for the XMP limit; otherwise records the payload size and places its first min(size, 65027) bytes at 0x1D1 |
| BlueskyReassembly.Field16 | src/encryption.cpp:439-441 | a 2-byte field reads as its big-endian value below 65536, and fails exactly when it passes the end |
| BlueskyReassembly.ReadDataset | src/encryption.cpp:436-445 | a dataset is read as the bytes behind its 16-bit size field, and fails exactly when they pass the end |
| BlueskyReassembly.ReadDatasets | src/encryption.cpp:433-458 | the second dataset is read exactly when the APP13 segment size exceeds 32800 |
| BlueskyReassembly.FindByte | src/encryption.cpp:465-468 | finds the first '<' from the start of the base64 text, or the end |
| BlueskyReassembly.XmpPayload | src/encryption.cpp:460-473 | the decoded base64 text is appended behind the dataset bytes already collected |
| BlueskyReassembly.CopyBack | src/encryption.cpp:475-479 | the collected bytes overwrite the image at the end of the EXIF part and nothing else changes |
| BlueskyReassembly.ReassembleWithin | src/encryption.cpp:418-425 | without the APP13 signature in the searched window the image is returned unchanged; otherwise its length is kept |
| BlueskyReassembly.EncodeHasNoTagOpen | src/encryption.cpp:465-468 | base64 text holds no '<', so the search for the text's end stops at the XMP footer |
| BlueskyReassembly.RoundTripDatasets | src/encryption.cpp:418-480 | a payload that fits in the EXIF part and the datasets comes back whole at 0x1D1 |
| BlueskyReassembly.RoundTripXmp | src/encryption.cpp:418-480 | a payload that needs the XMP segment comes back whole at 0x1D1 when both signatures lie inside the window |
| BlueskyReassembly.RoundTripExif | src/encryption.cpp:424-425 | a payload of at most 65027 bytes is left in place at 0x1D1 |
| BlueskyReassembly.ReassembleBlueskyDataAsWritten | src/encryption.cpp:418-480 | with the 125480-byte search window, an image without the APP13 signature there is returned unchanged |
| BlueskyReassembly.ReassembleBlueskyData | src/encryption.cpp:418-480 | the same, with the window widened to 125587 bytes |
| BlueskyReassembly.BlueskyRoundTrip | src/encryption.cpp:418-480 | every payload the builder accepts comes back whole at 0x1D1 from the corrected reassembly |
| BlueskyReassembly.PhotoshopSigIndexBound | src/encryption.cpp:419 | the APP13 signature ends by byte 125587, and after byte 125480 for payloads of 175186 bytes or more |
| BlueskyReassembly.SearchMissesSegment | src/encryption.cpp:419-424 | as written the search never reports the real APP13 segment of a payload of 175186 bytes or more |
| BlueskyReassembly.SearchLimitTooSmall | src/encryption.cpp:419-425 | as written such an image is returned as it is, with template bytes behind the first 65027 payload bytes instead of the rest of the payload |
| Encryption.LayoutsAgree | src/encryption.cpp:186-278 | the Bluesky indices of the two sides coincide, and the default indices of decryptDataFile are those of encryptDataFile moved 0x18 bytes to the front |
| Encryption.KeyXor | src/encryption.cpp:237-248 | the 48 key and nonce bytes behind the first 8 are XORed with those 8 bytes repeated, and nothing else changes |
| Encryption.XorKeys | src/encryption.cpp:243-248 | the source's loop, with its wrapping key position, computes exactly that XOR |
| Encryption.KeyXorInvolution | src/encryption.cpp:289-294 | applying the XOR twice restores the buffer |
| Encryption.ObfuscateKeys | src/encryption.cpp:237-252 | the PIN is the big-endian reading of the first 8 key bytes before the XOR; afterwards those 8 bytes hold the random value |
| Encryption.RestoreKeys | src/encryption.cpp:280-294 | writing the PIN back over the 8 bytes and repeating the XOR; the write fails out of range first, and the XOR needs the whole key block |
| Encryption.RestoreUndoesObfuscation | src/encryption.cpp:280-294 | restoring gives back the original profile exactly when the PIN typed is the PIN returned |
| Encryption.PinUnlocksKeys | src/encryption.cpp:237-294 | the same for the functions themselves: RestoreKeys(ObfuscateKeys(p)) is p exactly for the right PIN |
| Encryption.StoreFilename | src/encryption.cpp:192-201 | the random key bytes go to the filename-key field and each stored filename byte is the name byte XOR the key byte, for as many bytes as the length field says |
| Encryption.RecoverFilename | src/encryption.cpp:304-313 | the recovered name has the length the length field says, each byte the stored byte XOR the key byte |
| Encryption.FilenameRoundTrip | src/encryption.cpp:304-313 | recovering the stored name gives back the name, cut to the length field and padded with 0 bytes where the name is shorter |
| Encryption.StoreSecrets | src/encryption.cpp:192-210 | key and nonce are copied behind the filename fields, and the bytes before the secret region are kept |
| Encryption.ReadSecrets | src/encryption.cpp:280-313 | reading the secrets fails exactly when the key block passes the end; otherwise key and nonce have their sizes and are read from the restored image |
| Encryption.SecretsRoundTrip | src/encryption.cpp:183-313 | what encryptDataFile stores and obfuscates, decryptDataFile reads back with the right PIN: the key, the nonce and the filename, even after the image is moved to the front |
| Encryption.CheckSegments | src/encryption.cpp:326-332 | with two or more segments the check passes exactly when the last segment's APP2 marker is where the count says; with one segment the size_t wrap makes it fail |
| Encryption.CheckExif | src/encryption.cpp:334-353 | a missing EXIF marker in the first 100 bytes fails; a payload of 65534 bytes or more needs an EXIF segment size of at least 65534 |
| Encryption.ReadSizes | src/encryption.cpp:320-324 | the segment count is read as a 16-bit value at 0x2C8 and the payload size as 4 bytes, failing exactly when either field passes the end |
| Encryption.CheckImage | src/encryption.cpp:326-353 | the segment check is done only for default images, the EXIF check only for Bluesky ones |
| Encryption.OpenFile | src/encryption.cpp:355-396 | isolating the payload fails exactly when it passes the end of the image; an opened file carries the recovered filename |
| Encryption.ExtractFile | src/encryption.cpp:320-396 | a successful extraction has read both size fields inside the image and found the whole payload in it |
| Encryption.DecryptDataFile | src/encryption.cpp:269-397 | an image too short for the key block fails; a success read the payload inside the image, with a filename as long as its length byte says |
| Encryption.DecryptChecksSegments | src/encryption.cpp:326-332 | decrypting a default image with two or more segments succeeds only when the last segment's APP2 marker is in place, and fails for one segment |
| Encryption.FieldsOutsideKeys | src/encryption.cpp:282-324 | the PIN step leaves the size fields and the segment count as they were in the image |
| Embedding.PlaceSealed | src/encryption.cpp:219-225 | a default profile is followed by the sealed file; a Bluesky one goes through the segment builder, which fails exactly for a short template or an oversized file; the bytes before it are kept except the EXIF size fields |
| Embedding.Obfuscation | src/encryption.cpp:192-252 | storing the secrets, placing the sealed file and hiding the key block never fails for a default profile and fails for Bluesky exactly when the builder does |
| Embedding.PinIsKeyPrefix | src/encryption.cpp:238 | the PIN returned is the big-endian reading of the first 8 bytes of the secretbox key |
| Embedding.EncryptedSecretsReadBack | src/encryption.cpp:183-313 | reading an encrypted profile's secret region with the returned PIN gives the key, the nonce and the filename that were drawn and stored |
| Embedding.EncryptDataFile | src/encryption.cpp:183-267 | returns the PIN; a Bluesky profile goes in front of the image with only the Bluesky report entry kept; any other goes through segmentDataFile |
| Embedding.BlueskySecretsRoundTrip | src/encryption.cpp:183-313 | a Bluesky image written by encryptDataFile gives back its key, nonce and filename to decryptDataFile's reads with the PIN returned |
| Recover.OnFailure | src/recover.cpp:55-67 | a wrong PIN either rewrites the counter byte with its next value or truncates the image |
| Recover.OnSuccess | src/recover.cpp:78-81 | a success leaves the image untouched exactly when the counter already holds the reset value |
| Recover.FailureKeepsImage | src/recover.cpp:56-66 | a wrong PIN keeps the image exactly when the counter was the reset value, 0, 1 or 255 (the byte increment wraps) |
| Recover.FourthFailureDestroys | src/recover.cpp:56-66 | from the reset value, k wrong PINs in a row truncate the image exactly when k >= 4, and leave the counter at k − 1 before that |
| Recover.SuccessResets | src/recover.cpp:78-81 | after a success the counter holds the reset value 0x90 |
| Recover.WrongPinSequence | src/recover.cpp:56-66 | the counter goes 0x90, 0, 1, 2, and the next failure truncates |
| Recover.Prepare | src/recover.cpp:37-50 | an image with the ICC signature is trimmed to start 8 bytes before it and is compressed unless its flag byte is 'X'; any other image is a Bluesky one, always compressed, reassembled in place |
| Recover.Output | src/recover.cpp:70-76 | the output is inflated when compressed and must not be empty |
| Recover.Finish | src/recover.cpp:52-81 | a wrong PIN counts a failure; a success resets the counter and returns the decrypted filename with non-empty data; any other failure leaves the image alone |
| Recover.Attempt | src/recover.cpp:48-81 | the same guarantees once the image has been prepared |
| Recover.RecoverData | src/recover.cpp:11-99 | without the signature nothing happens; otherwise only a wrong PIN or a success touches the image, through the counter byte behind the signature |
| Recover.RecoveredFile | src/recover.cpp:70-76 | the recovered file is the decrypted data, inflated when the image says it is compressed; an empty result or a zlib error fails without touching the image |
| JpegUtils.Word | src/jpeg_utils.cpp:41-46 | a TIFF 16-bit field in the file's byte order, below 65536 |
| JpegUtils.ScanEntries | src/jpeg_utils.cpp:70-83 | the IFD scan yields a 16-bit value or nothing |
| JpegUtils.ScanFindsFirst | src/jpeg_utils.cpp:70-83 | the scan returns the value of the first orientation entry, and returns it whenever such an entry comes before any entry that passes the end |
| JpegUtils.TiffOrientation | src/jpeg_utils.cpp:33-66 | an orientation is found only in a TIFF block of at least 8 bytes with "II" or "MM", magic 42, and an IFD offset of at least 8 inside the block |
| JpegUtils.App1Payload | src/jpeg_utils.cpp:14-24 | no APP1 marker in the first 4096 bytes means no payload; a payload is the bytes behind the length field of the first marker, its length two less than the field, inside the image |
| JpegUtils.ExifOrientation | src/jpeg_utils.cpp:10-84 | an orientation is found only behind an "Exif\0\0" header and is a 16-bit value |
| JpegUtils.ExifBlockRead | src/jpeg_utils.cpp:10-34 | for an image whose first APP1 segment holds "Exif\0\0" and a TIFF block, the orientation is the TIFF block's |
| JpegUtils.TiffHeaderRead | src/jpeg_utils.cpp:36-72 | for a well-formed TIFF header the orientation is the scan of the IFD it points to |
| JpegUtils.GetTransformOp | src/jpeg_utils.cpp:86-97 | orientations 2..8 map to the transform that undoes them, everything else to no transform |
| JpegUtils.TransformRoundTrip | src/jpeg_utils.cpp:86-97 | each transform is chosen for exactly one orientation |
| JpegUtils.LuminanceSumsFalling | src/jpeg_utils.cpp:102-114 | the standard luminance sums fall strictly from 16320 at quality 1 to 64 at quality 100 |
| JpegUtils.FirstAtOrBelow | src/jpeg_utils.cpp:153-163 | finds the first quality whose standard sum is at or below the measured sum |
| JpegUtils.QualityOf | src/jpeg_utils.cpp:150-164 | a quality in 1..100: 100 for a sum up to 64, 1 for a sum of 16320 or more |
| JpegUtils.QualityIsNearest | src/jpeg_utils.cpp:150-164 | the quality chosen has a standard sum nearest the measured one, and every higher quality is strictly farther (a tie goes to the lower quality) |
| JpegUtils.TableSum | src/jpeg_utils.cpp:143-148 | sums 64 table entries of 8 or 16 bits |
| JpegUtils.LuminanceTableSum | src/jpeg_utils.cpp:116-167 | without a DQT marker in the first 32768 bytes there is no sum |
| JpegUtils.EstimateImageQuality | src/jpeg_utils.cpp:99-169 | the estimate is in 1..100 and is 80 when there is no DQT marker |
| JpegUtils.EstimateReadsLuminance | src/jpeg_utils.cpp:131-148 | when the first table of the first DQT segment is the 8-bit luminance table, its 64 bytes are summed |
| JpegUtils.OtherTablesSkipped | src/jpeg_utils.cpp:139-166 | a table with a non-zero id is skipped by its size, 64 or 128 bytes by precision |
| PinInput.Step | src/pin_input.cpp:39-53 | a digit is appended, backspace or DEL removes the last digit of a non-empty input, any other key leaves the input as it was; the input stays all digits |
| PinInput.Collect | src/pin_input.cpp:39-53 | the loop ends with at most 20 digits |
| PinInput.ParsePin | src/pin_input.cpp:59-67 | the PIN fits in 64 bits and is either 0 or the value of the typed digits |
| PinInput.GetPin | src/pin_input.cpp:10-68 | a PIN that is read fits in 64 bits |
| PinInput.ValueBound | src/pin_input.cpp:64 | the value of n digits is below 10^n |
| PinInput.LexIsNumeric | src/pin_input.cpp:59 | for equal-length digit strings the string comparison agrees with the numeric one |
| PinInput.MaxU64TextValue | src/pin_input.cpp:11 | the guard's text is exactly 2^64 - 1 |
| PinInput.GuardIsOverflow | src/pin_input.cpp:59 | the 20-digit string guard rejects exactly the inputs whose value exceeds 2^64 - 1 |
| PinInput.ParsePinValue | src/pin_input.cpp:59-67 | the PIN is the typed value when that fits in 64 bits and 0 otherwise |
| PinInput.TypedDigitsRead | src/pin_input.cpp:39-53 | fewer than 20 digits followed by a newline are read as typed, whatever follows |
| PinInput.FullPinRead | src/pin_input.cpp:39 | the 20th digit ends the read without a newline |
| PinInput.BackspaceUndoesDigit | src/pin_input.cpp:42-49 | backspace or DEL after a digit restores the input |
| PinInput.GetPinOfTyped | src/pin_input.cpp:10-68 | typing 1 to 19 digits and a newline yields their value |
| FileUtils.FileName | src/file_utils.cpp:14 | the file name is the suffix of the path after its last '/', and holds no '/' |
| FileUtils.Extension | src/file_utils.cpp:25 | a non-empty extension starts with '.', is a proper suffix of the file name and holds no other '.' or '/' |
| FileUtils.Lower | src/file_utils.cpp:26-28 | each character is lowered, the length kept |
| FileUtils.ExtensionMatchIgnoresCase | src/file_utils.cpp:24-32 | against lower-case extensions, the check holds exactly when some listed extension equals the path's extension ignoring case |
| FileUtils.DirectoryNotChecked | src/file_utils.cpp:10-22 | only the file name's characters are checked: a directory in front changes neither the name nor the verdict |
| FileUtils.NameExtension | src/file_utils.cpp:25 | "stem.ext" has extension ".ext" |
| FileUtils.FirstFailureIsFirst | src/file_utils.cpp:34-86 | the error reported is that of the first failing check, and none is reported exactly when all pass |
| FileUtils.ReadFile | src/file_utils.cpp:34-88 | a successful read returns exactly file_size bytes of a regular, non-empty file within 3 GiB whose name is valid; images carry an image extension and a cover image is 134 bytes to 8 MiB |
| FileUtils.ReadFileChecksInOrder | src/file_utils.cpp:34-88 | readFile throws the first failing check's error in the source's order, and otherwise succeeds exactly when the file opens and yields file_size bytes |
| FileChecks.ValidateImageFile | src/fileChecks.cpp:28-62 | the image passes exactly when its name is valid, its extension is .jpg, .jpeg or .jfif, it has at least 134 bytes, at most 800 KiB for Bluesky and at most 3 GiB on recovery |
| FileChecks.CombinedSize | src/fileChecks.cpp:71 | the combined size is the sum modulo 2^64 |
| FileChecks.ValidateDataFile | src/fileChecks.cpp:64-93 | the data file passes exactly when it is non-empty, at most 5 MiB for Bluesky, and the combined size is at most 20 MiB for Reddit and 2 GiB without an option |
| FileChecks.ImageChecksInOrder | src/fileChecks.cpp:33-61 | validateImageFile throws the first failing check's error in the source's order |
| FileChecks.DataChecksInOrder | src/fileChecks.cpp:73-92 | validateDataFile throws the first failing check's error in the source's order |
| FileChecks.ImageLimitIsBlueskyOnly | src/fileChecks.cpp:55-57 | every platform but Bluesky gets the same image verdict |
| FileChecks.BlueskyIgnoresImageSize | src/fileChecks.cpp:82-92 | for Bluesky the data verdict does not depend on the image size |
| FileChecks.CombinedSizeExact | src/fileChecks.cpp:71 | sizes below 2^63 add without wrapping |
| FileChecks.ImageExtensionsAreCompressed | src/fileChecks.cpp:9-26 | every accepted image extension counts as compressed |
| FileChecks.CompressedIsCaseSensitive | src/fileChecks.cpp:9-16 | an extension with an upper-case letter is never treated as compressed |
| FileChecks.SeparatorsAccepted | src/fileChecks.cpp:18-21 | joining two valid names with '/' or '\\' gives a valid name |
| DeflateLevel.Truncate32 | src/jdvin/deflateFile.cpp:40 | the narrowed size is below 2^32 and equals the size when that fits |
| DeflateLevel.CompressedNeverWorksHard | src/jdvin/deflateFile.cpp:52-59 | an already-compressed type gets at most the fastest level, and is compressed exactly when its narrowed size is in 5..100 MiB |
| DeflateLevel.EffortFallsWithSize | src/jdvin/deflateFile.cpp:58-66 | for other types a larger file is never compressed harder |
| DeflateLevel.OtherStoredOnlyWhenHuge | src/jdvin/deflateFile.cpp:58-66 | other types are stored exactly when over 800 MiB and get the best level exactly up to 200 MiB |
| DeflateLevel.SizeSeenModulo32Bits | src/jdvin/deflateFile.cpp:40 | a file 4 GiB larger gets the same level |
| EraseSegments.Locate | src/jdvin/eraseSegments.cpp:11 | the first occurrence of the signature at or after the start, or the buffer's size when there is none |
| EraseSegments.FirstDqt | src/jdvin/eraseSegments.cpp:27-30 | the earlier of the two table positions, within the buffer |
| EraseSegments.EraseFirstCutsSegment | src/jdvin/eraseSegments.cpp:11-15 | erasing removes exactly the marker and the bytes its length field counts, at the first marker, keeping everything around it |
| EraseSegments.EraseFirstFailsOnlyPastEnd | src/jdvin/eraseSegments.cpp:11-15 | the buffer is unchanged exactly when the marker is absent, and the erase is undefined exactly when the segment runs past the end |
| EraseSegments.CropStartsAtTable | src/jdvin/eraseSegments.cpp:27-32 | the crop starts at the first quantisation table of either kind, and no table comes before it |
| EraseSegments.KodakFlag | src/jdvin/eraseSegments.cpp:17-22 | the Kodak flag is never cleared, and is set exactly when an APP2 marker is followed by "KODAROM" |
| EraseSegments.EraseResult | src/jdvin/eraseSegments.cpp:2-33 | the result is the image after both erasures from its first table on, and no longer than the input |
| HeaderStrip.Phase | src/encryption.cpp:318 | a position within one 65537-byte segment |
| HeaderStrip.HeaderPositions | src/encryption.cpp:364-379 | the bytes the loop skips, [0xFCB0 + k * 65537, +18), are exactly the header bytes of the segment train seen from the file's start |
| HeaderStrip.Filtered | src/encryption.cpp:371-381 | the reference definition keeps no more bytes than it is given |
| HeaderStrip.FilteredPeriodic | src/encryption.cpp:377 | shifting the view by one whole segment removes the same bytes |
| HeaderStrip.FilteredHeader | src/encryption.cpp:375-376 | an 18-byte header at the start of a segment is removed entirely |
| HeaderStrip.FilteredData | src/encryption.cpp:380 | the data part of a segment is kept entirely |
| HeaderStrip.FilteredEmitted | src/segmentation.cpp:44-70 | removing the headers of a segment train gives back the data it was cut from |
| HeaderStrip.StripUndoesSegmentation | src/encryption.cpp:359-384 | stripping a multi-segment profile from the encrypted file's start gives back the encrypted file |
| HeaderStrip.StripHeaders | src/encryption.cpp:364-384 | the in-place read/write loop leaves exactly the non-header bytes, in order |
| JdvrifV12.ValueWrite | src/jdvrif.cpp:29-31 | the writer keeps the buffer's length |
| JdvrifV12.ValueWriteIsWriteBE | src/jdvrif.cpp:29-31 | the v1.2 writer is the big-endian writer of binary_io: the bytes written read back as the value modulo 2^bits and nothing else changes |
| JdvrifV12.LastSeparator | src/jdvrif.cpp:322 | find_last_of("\\/"): the last '/' or '\\', or none |
| JdvrifV12.ReduceNameSplits | src/jdvrif.cpp:319-328 | the reduced name holds no separator and is what follows the last one |
| JdvrifV12.ReduceNameIdempotent | src/jdvrif.cpp:319-328 | reducing a reduced name changes nothing |
| JdvrifV12.NameLength | src/jdvrif.cpp:340 | the name length narrowed to a byte, exact below 256 |
| JdvrifV12.InsertSizeMonotone | src/jdvrif.cpp:164-171 | a smaller image or data file passes whenever a larger one did |
| JdvrifV12.InsertSizeBound | src/jdvrif.cpp:164-171 | an accepted pair stays 18 bytes under 200 MB, and the data file alone is under 200 MB |
| JdvrifV12.CheckInsert | src/jdvrif.cpp:152-171 | an image shorter than 3 bytes is an error (the source reads past its end); otherwise insertion proceeds exactly when the image starts FF D8 FF and the size test passes, the signature checked first |
| JdvrifV12.CodeName | src/jdvrif.cpp:376-378 | the coded name has the name's length |
| JdvrifV12.XorStream | src/jdvrif.cpp:380-390 | the coded data has the data's length |
| JdvrifV12.CodeNameTwice | src/jdvrif.cpp:376-378 | coding the coded name again gives the name back |
| JdvrifV12.XorStreamTwice | src/jdvrif.cpp:380-390 | coding the coded data again with the same key gives the data back |
| JdvrifV12.SkippedSpec | src/jdvrif.cpp:393-400 | the count of headers skipped before data byte m is exactly the number placed at or before it |
| JdvrifV12.InsertCodes | src/jdvrif.cpp:317-390 | insert mode exits for a name over 23 characters or longer than the file, and otherwise codes the name with the fixed key and the data with the coded name |
| JdvrifV12.ExtractDecodes | src/jdvrif.cpp:317-403 | extract mode exits in the same cases, decodes the stored name, and decodes the data read around the headers with the stored name, failing only when a read passes the end |
| JdvrifV12.PosAvoidsHeaders | src/jdvrif.cpp:393-400 | no data byte is read from inside a header |
| JdvrifV12.PosIncreasing | src/jdvrif.cpp:389-400 | data bytes are read from strictly increasing positions |
| JdvrifV12.PosBounds | src/jdvrif.cpp:393-400 | byte m is read 18 bytes further on per header before it |
| JdvrifV12.TrimmedReadsPastEnd | src/jdvrif.cpp:306 | cutting the image at FILE_SIZE, as written, makes extraction read past the cut as soon as one header lies among the data |
| JdvrifV12.TrimmedExample | src/jdvrif.cpp:306 | one name byte, two data bytes and a header after the first: the second byte is read from position 19 of a 2-byte buffer |
| JdvrifV12.CorrectedExtractDecodes | src/jdvrif.cpp:306 | cutting after the data and all its headers, every data byte is kept and extraction decodes the name and the data |
| JdvrifV12.InsertThenExtract | src/jdvrif.cpp:317-445 | without profile headers, extracting what insertion wrote gives back the data and the reduced filename |
| RotatingCipher.Reverse | src/jdvin/encrypt.cpp:36 | reversal keeps the key's length |
| RotatingCipher.ReverseTwice | src/jdvin/encrypt.cpp:36 | reversing twice restores the key |
| RotatingCipher.KeyAt | src/jdvin/encrypt.cpp:34-36 | each pass uses a key of 12 bytes |
| RotatingCipher.KeyAlternates | src/jdvin/encrypt.cpp:34-36 | the key used by pass j is the reversed key for even j and the drawn key for odd j |
| RotatingCipher.KeyedName | src/jdvin/encrypt.cpp:38-44 | the coded name has one byte per name character coded |
| RotatingCipher.KeyedNameTwice | src/jdvout/decrypt.cpp:31-37 | coding the coded name again with the same key gives the name back |
| RotatingCipher.EncryptFile | src/jdvin/encrypt.cpp:1-57 | the stored profile grows by exactly the data's size |
| RotatingCipher.EncLoopCodes | src/jdvin/encrypt.cpp:34-47 | the loop codes the name with the rotating key and the data with the coded name's key stream |
| RotatingCipher.EncryptLays | src/jdvin/encrypt.cpp:20-53 | encryption fails only on a template too short; otherwise the key is at 0x260, the name length at 0x50, the coded name at 0x51, the coded data at 663, and the rest of the template after it |
| RotatingCipher.DecLoopDecodes | src/jdvout/decrypt.cpp:27-46 | the in-place loop, its bound starting at a given count, decodes the name and writes that many data bytes, read around the headers and XORed with the stored name's key stream, over the front of the image, leaving the rest alone; it fails exactly when a read passes the end |
| RotatingCipher.DecryptDecodes | src/jdvout/decrypt.cpp:2-48 | decryption fails when the stored name is shorter than the key, and otherwise decodes the name and the data read around the headers |
| RotatingCipher.HeaderReadsPastEnd | src/jdvout/decrypt.cpp:15-45 | the bound starts at the image's size and grows by 18 per header reached, so once a header lies inside the image the last pass reads past its end |
| RotatingCipher.CorrectedDecryptDecodes | src/jdvout/decrypt.cpp:15-45 | with the bound starting at the data size, decryption fails exactly when a data byte lies past the end, always succeeds when the image holds the data and its headers, and then decodes the name and the data read around the headers |
| RotatingCipher.HeaderExample | src/jdvout/decrypt.cpp:15-45 | a 21-byte image with one header after its first byte: as written the read runs past the end, corrected it reads the 3 data bytes at 0, 19 and 20 |
| RotatingCipher.StoredNameAndKey | src/jdvin/encrypt.cpp:24-51 | the coded name read at 0x51 with the length at 0x50, followed by the key at 0x260, is what decryption is given |
| RotatingCipher.EncryptThenDecrypt | src/jdvout/decrypt.cpp:2-48 | decrypting what encryption stored restores the name and the data, when the file has no headers and the name length modulo 256 is between 1 and the data size |
| BskyScan.RunSpec | src/bsky/bsky_post.py:54 | a bounded repetition takes every byte of the class up to its bound and stops at the first byte outside it |
| BskyScan.TagEnd | src/bsky/bsky_post.py:90 | a hashtag group spans '#' and at least one more byte |
| BskyScan.TagGroupSpans | src/bsky/bsky_post.py:90 | a hashtag group exists exactly when '#' is followed by a word byte or hyphen, and takes the whole run of them |
| BskyScan.MentionEnd | src/bsky/bsky_post.py:54 | a mention group spans '@' and at least one more byte |
| BskyScan.MentionIsHandle | src/bsky/bsky_post.py:54 | a mention group is '@' followed by a handle: dot-separated labels of 1 to 63 characters, the last starting with a letter |
| BskyScan.UrlEnd | src/bsky/bsky_post.py:72 | a URL group is a non-empty span of the text |
| BskyScan.UrlShape | src/bsky/bsky_post.py:72 | a URL group starts with "http://" or "https://" and ends on a byte the path's last class allows |
| BskyScan.MatchAt | src/bsky/bsky_post.py:52-56 | a match at p starts its group at p + 1 after a non-word byte, or at 0 at the start of the text |
| BskyScan.ScanSound | src/bsky/bsky_post.py:54-63 | every span finditer reports is a group match behind a non-word byte or the start, in order and without overlap |
| BskyScan.ScanEmpty | src/bsky/bsky_post.py:54-63 | finditer reports nothing exactly when no position matches |
| BskyScan.ScanLeftmost | src/bsky/bsky_post.py:54-63 | finditer reports the leftmost match first and resumes at its end |
| BskyScan.MentionSpans | src/bsky/bsky_post.py:50-64 | each mention span starts at '@' and carries a valid handle |
| BskyScan.UrlSpans | src/bsky/bsky_post.py:67-82 | each URL span carries exactly the text it covers, an http or https URL |
| BskyScan.HashtagSpans | src/bsky/bsky_post.py:85-100 | each hashtag span starts at '#' and carries the whole run of word bytes and hyphens after it, without the '#' |
| BskyScan.TagsExample | src/bsky/bsky_post.py:474-477 | "#123 #abc-def" gives the tags "123" at 0..4 and "abc-def" at 5..13 |
| BskyScan.CcExample | src/bsky/bsky_post.py:433-435 | "cc:@example.com" gives the handle "example.com" at 3..15 |
| BskyScan.BareExample | src/bsky/bsky_post.py:428 | "@bare" gives no mention |
| BskyScan.RefExample | src/bsky/bsky_post.py:454-456 | "ref (https://bsky.app/)" gives the URL "https://bsky.app/" at 5..22 |
| BskyUri.Split | src/bsky/bsky_post.py:175 | str.split gives at least one piece and no piece holds the separator |
| BskyUri.JoinSplit | src/bsky/bsky_post.py:175 | joining the pieces of a split gives the string back |
| BskyUri.SplitJoin | src/bsky/bsky_post.py:175 | splitting a join of separator-free pieces gives the pieces back |
| BskyUri.Collection | src/bsky/bsky_post.py:184-189 | any path segment other than post, lists and feed is kept as it is |
| BskyUri.ParseUri | src/bsky/bsky_post.py:172-193 | only an at:// or https://bsky.app/ address is parsed, and any other is refused as unhandled |
| BskyUri.AtUriRoundTrip | src/bsky/bsky_post.py:174-178 | parsing at://repo/collection/rkey, with anything after, gives back the three parts |
| BskyUri.WebUrlRoundTrip | src/bsky/bsky_post.py:179-190 | parsing https://bsky.app/profile/repo/kind/rkey gives back the repo, the mapped collection and the key |
| BskyUri.ShortUrisRefused | src/bsky/bsky_post.py:175-183 | an at:// address of fewer than 5 pieces and a web address of fewer than 7 are refused |
| BskyUri.LastDot | src/bsky/bsky_post.py:234 | the last '.' of the name, with none after it |
| BskyUri.Extension | src/bsky/bsky_post.py:234 | the suffix without its dot holds neither '.' nor '/' |
| BskyUri.Lower | src/bsky/bsky_post.py:234 | each character lowered, the length kept |
| BskyUri.GetMimetype | src/bsky/bsky_post.py:232-242 | one of the four image types or application/octet-stream |
| BskyUri.MimetypeOfName | src/bsky/bsky_post.py:232-242 | the type of dir/stem.ext is the one the table gives the lowered ext |
| BskyUri.MimetypeIgnoresCase | src/bsky/bsky_post.py:234 | the extension's case does not matter |
| BskyUri.NoExtensionIsOctets | src/bsky/bsky_post.py:242 | a name without a suffix is application/octet-stream |
| BskyPost.MentionFacets | src/bsky/bsky_post.py:111-133 | resolving mentions fails only on a response without a did, and yields at most one facet per mention |
| BskyPost.LinkFacets | src/bsky/bsky_post.py:136-151 | one link facet per URL span |
| BskyPost.TagFacets | src/bsky/bsky_post.py:154-169 | one tag facet per hashtag span |
| BskyPost.MentionFacetsFail | src/bsky/bsky_post.py:111-133 | resolving fails exactly when some mention gets a response without a did |
| BskyPost.MentionFacetsSound | src/bsky/bsky_post.py:111-133 | every mention facet is the facet of some resolved mention |
| BskyPost.MentionFacetsComplete | src/bsky/bsky_post.py:111-133 | every mention that resolves to a did has its facet in the list; a 400 or a request error skips it |
| BskyPost.MentionFacetsOrdered | src/bsky/bsky_post.py:111-133 | mention facets keep the text order of the mentions |
| BskyPost.MentionsFollowText | src/bsky/bsky_post.py:111-133 | the mention facets of a text are in text order |
| BskyPost.FacetsFail | src/bsky/bsky_post.py:103-169 | parse_facets fails exactly when some mention resolves without a did |
| BskyPost.FacetsLayout | src/bsky/bsky_post.py:103-169 | the facets are the mention facets, then one link facet per URL and one tag facet per hashtag, each with its span and value |
| BskyPost.FacetsInText | src/bsky/bsky_post.py:103-169 | every facet covers a non-empty byte range inside the text |
| BskyPost.GetReplyRefs | src/bsky/bsky_post.py:196-229 | the parent reference is the fetched parent's uri and cid |
| BskyPost.ReplyRoot | src/bsky/bsky_post.py:196-229 | an error fetching the parent is the result; a parent with no reply is its own root; otherwise the root is fetched from the parent's reply root, and its error is the result |
| BskyPost.ReplyFetchesParent | src/bsky/bsky_post.py:172-229 | replying to at://repo/collection/rkey fetches exactly those parts |
| BskyPost.UploadFrom | src/bsky/bsky_post.py:263-291 | a successful upload yields one embedded image per path |
| BskyPost.UploadSpec | src/bsky/bsky_post.py:263-291 | uploading succeeds exactly when every image is within 1,000,000 bytes and uploads, and image j carries alt text j (empty past the list) and its blob |
| BskyPost.TooLargeStops | src/bsky/bsky_post.py:276-279 | the first image over the limit stops the upload with its size, before it is sent |
| BskyPost.GetEmbedRef | src/bsky/bsky_post.py:337-354 | the record embed succeeds exactly when the record is fetched, and carries its uri and cid |
| BskyPost.PostFields | src/bsky/bsky_post.py:357-396 | the post carries the text and time; langs only when given; facets only for a non-empty text with facets; a reply only when asked; the embed from images, else the URL card, else the record |
| BskyPost.PostFailsFirst | src/bsky/bsky_post.py:376-396 | the first failing step, in the order facets, reply, embed, is the post's error |
| BskyPost.OversizeImageFailsPost | src/bsky/bsky_post.py:387-390 | an oversize image fails the post with its size |

## Left out

- Segmentation.ProfileData: builds the multi-segment profile with the corrected last length field (data size + 16), not the `segment_remainder_size + 16` written at src/segmentation.cpp:41. The as-written builder is `Segmentation.BuildMultiSegmentIccAsWritten`, and "## Findings" gives the input where they differ.
- Segmentation.SegmentDataFile: inherits that substitution from `ProfileData`. `HeaderStrip.StripUndoesSegmentation` is proved against the corrected builder too. `Segmentation.AsWrittenAgreesUnlessShortRemainder` shows the two builders agree unless (size - 16) mod 65519 is at most 4.
- Recover.RecoverData: `Prepare` reassembles a Bluesky image with the corrected search limit of 125587 (`BlueskyReassembly.ReassembleBlueskyData`), not the SEARCH_LIMIT of 125480 at src/encryption.cpp:419. For payloads of 175186 bytes or more the model therefore recovers data that the source fails to find (`BlueskyReassembly.SearchMissesSegment`).
- JdvrifV12.EncryptDecrypt: after the last profile header, src/jdvrif.cpp:394 still reads `ProfileHeaderOffsetVec[Offset_Index]` with the index equal to the vector's size. This is a read past the end, and the model treats it as "no header to skip" (`SkipsHeader` guards the index) instead of as an error.
- RotatingCipher.DecryptFile: the same choice for the same past-the-end offset read at src/jdvout/decrypt.cpp:41.
- RotatingCipher.EncryptThenDecrypt: assumes no profile headers inside the data and a coded name of 1 to |data| bytes. Decryption only finishes decoding the name inside the data loop, and it cannot decode an empty name.
- PinInput.GetPin: models the POSIX branch only, as a fold over the characters `read` delivers. The Windows `_getch` branch with its '\r' terminator is left out. So are the terminal mode switches and the echo of '*'.
- JpegUtils.Word: reads the Exif words as if the host were little-endian. `read16`/`read32` copy the bytes with `memcpy` and byte-swap only for "MM" data. The `DWord` reader makes the same assumption.
- JpegUtils.ExifOrientation: requires `LengthDefined`, i.e. no APP1 length field below 2. Below 2, `segment_length - 2` wraps around, which is undefined in the source.
- Recover.ReadsInBounds: an assumption about the unchecked reads of recoverData, stated as a predicate rather than modelled as a failure.
- BinaryIo.UpdateValue: the bounds test `index + length > data.size()` is evaluated on unbounded integers. Its `size_t` wrap-around is not modelled, and neither is the `static_assert` on a little-endian host.
- BinaryIo.GetValue: the same bounds-test overflow is not modelled.
- Cryptography and compression are not modelled: the libsodium secretbox seal and open, `randombytes_buf`, and zlib deflate and inflate. Each is a parameter (`Embedding.Sealer`, `Embedding.Draws`, `Encryption.Opener`, `Recover.Inflater`), and the proofs hold for any such function.
- The libjpeg-turbo calls are left out: decoding, the lossless transform, re-encoding (optimizeImage) and the cover-image dimension checks. Only the pure readers in jpeg_utils.cpp are modelled.
- insertProfileHeaders and findProfileHeaders of jdvrif v1.2 are not modelled. The XOR loop takes the header offsets as an input, and `JdvrifV12.WellPlaced` states where they must lie.
- File and console I/O are values in the model. A file is its byte sequence. The filesystem is a `FileUtils.Stat` and an "opens" flag. Writing the output file becomes the `Recover.Effect` on the image.
- Command-line parsing and usage text are left out.
- Integer widths are written out where the source narrows a value: the `uint8` name length, the `uint32` size in the deflate cascade, the 64-bit combined size, and the 16-bit segment length fields. Elsewhere the model uses unbounded integers.
- BskyPost.PostFields: the network is not modelled. Handle resolution, getRecord, uploadBlob and the HTML link-card fetch are parameters that return a value or an error. The login at src/bsky/bsky_post.py:359 and the createRecord request at 400-415 are not modelled at all: `CreatePost` returns the record that would be sent, and a login or createRecord failure is never among its outcomes. The clock is a parameter: `createdAt` is the `now` string passed in.
- BskyScan.ScanSound: the scanners run over the UTF-8 bytes of the text, with ASCII word characters only. Python's `\w` on bytes matches ASCII only, so this agrees with the source. Decoding the text to UTF-8 is not modelled.
- BskyUri.GetMimetype: `lower()` is modelled on ASCII letters only, and `PurePath.suffix` as "the part from the last dot of the last path component".
- The checks in the script's `main` are left out: the credential check, the limit of four images, and the limit of 300 characters of text (`len` counts code points). They belong to the command-line front end, before `create_post` runs.

## Findings

| source | as written | input that shows it | evidently intended | confidence | as-written member | corrected member |
|---|---|---|---|---|---|---|
| src/segmentation.cpp:41 | the last APP2 segment's length field is `segment_remainder_size + 16` | a 131054-byte profile: the last segment holds 65515 data bytes, but its length field says 16 | the length of the data the last segment holds, plus 16 | not executed | Segmentation.AsWrittenLastLengthWrong | Segmentation.MultiSegmentHeaders |
| src/encryption.cpp:419 | the Photoshop signature search stops at SEARCH_LIMIT 125480 | any Bluesky payload of 175186 bytes or more: the APP13 signature then lies beyond byte 125480 | a limit of at least 125587, the furthest the signature can lie for an accepted payload | not executed | BlueskyReassembly.SearchMissesSegment | BlueskyReassembly.BlueskyRoundTrip |
| src/jdvrif.cpp:306 | the image is cut at FILE_SIZE, which does not count the 18-byte profile headers | name "a", 2 data bytes, one header at offset 1 (`JdvrifV12.TrimmedExample`): the second data byte sits at 19, past the cut | cut at FILE_SIZE plus 18 bytes per header | not executed | JdvrifV12.TrimmedReadsPastEnd | JdvrifV12.CorrectedExtractDecodes |
| src/jdvout/decrypt.cpp:15-45 | `file_size` starts at `Image_Vec.size()` and grows by 18 for each header reached, so the loop runs 18 bytes per header past the image | a 13-byte stored name (L = 1), a 21-byte image and one header at offset 1 (`RotatingCipher.HeaderExample`): the bound grows to 39 and the read at 21 is past the end | a bound that starts at the number of data bytes and grows by 18 per header | not executed | RotatingCipher.HeaderReadsPastEnd | RotatingCipher.CorrectedDecryptDecodes |
