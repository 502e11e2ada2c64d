# LSB audio steganography codec — a verified Dafny model

This project models the core of a Python audio-steganography tool. The tool hides a
byte payload in the least significant bits of uncompressed PCM sample bytes
("frames"). It can compress the payload with zlib first, and it can also
encrypt it with AES-256-GCM under a PBKDF2-derived key. Later it recovers the
payload bit for bit.

The model covers two source files:

- `logic.py`: the 264-byte header, the LSB embedding and extraction, and the
  `hide_data` / `extract_data` orchestration around them.
  - The header is 1 flag byte, a 255-byte zero-padded UTF-8 filename, then two
    big-endian 32-bit sizes.
  - Bits go MSB-first, one payload bit per frame.
  - The orchestration covers the flags, the capacity and bounds checks, and
    truncation to the original size.
- `security.py`: the encrypted-blob layout
  `MAGIC "AESGCMv1" (8) || salt (16) || nonce (12) || ciphertext || tag (16)`,
  the chunked (64 KiB) encrypt loop, and the decrypt loop. The decrypt loop
  checks the length and the magic, decrypts chunk by chunk, and removes its
  output when the tag does not verify.

Modules, one per component:

| file | module | models |
|---|---|---|
| results.dfy | `Results` | error kinds, one per failure the codec can raise plus `FilenameTooLong` of the corrected header builder, and `Result` / `Option` |
| bits.dfy | `Bits` | MSB-first bit expansion and repacking, big-endian 32-bit fields |
| utf8.dfy | `Utf8` | well-formed UTF-8, standing for the strict `.decode('utf-8')` |
| lsb.dfy | `LsbCodec` | LSB write/read, capacity check, the in-place embedding loop |
| header.dfy | `HeaderCodec` | `create_header`, `parse_header` |
| cipher.dfy | `CipherEngine` | `encrypt_file`, `decrypt_file`, blob layout and constants |
| pipeline.dfy | `Pipeline` | `hide_data`, `extract_data` |

Frames, payloads, filenames and passphrases are `seq<bv8>`. A filename or
passphrase is its UTF-8 encoding.

External code is passed in as parameters:

- zlib is the `Zlib` record: an opaque `compress` and a `decompress` that can fail.
- AES-GCM and PBKDF2 are the `Primitives` record of opaque total functions:
  - a key derivation returning 32 bytes;
  - a keystream byte per ciphertext offset, for a key and nonce (GCM's counter mode);
  - a 16-byte tag over the whole ciphertext, for a key and nonce.
- The random salt and nonce are inputs of fixed length.

Each operation that loops in the source has two forms:

- a whole-buffer function: `Embed`, `Encrypt`, `Decrypt`;
- a method with the source's loop: `EmbedInPlace`, `EncryptStream`, `DecryptStream`.

Each method is proved to compute exactly what its function computes.

Behaviour of the code that is easy to get wrong:

- An over-long filename is neither truncated nor rejected by `create_header`:
  its header grows past 264 bytes (see Findings). The model's `hide_data`
  rejects such a name instead.
- Every frame holds one bit, so 10,000 frames hold a header plus a 5-byte
  payload: 2,152 bits (`Pipeline.TenThousandFramesHoldFiveBytes`).
- There is no check for a missing passphrase: an empty passphrase is used as is.
- The header always has the payload-size field.

## Model

| member | source | states |
|---|---|---|
| Bits.ByteToBits | logic.py:78 | `format(b, '08b')`: eight bits, bit k is the k-th most significant bit of the byte |
| Bits.BitsToByte | logic.py:21 | `int(bits, 2)` on eight bits: the byte whose k-th most significant bit is `bits[k]` |
| Bits.BitsToByteOfByteToBits | logic.py:78 | reading back a byte's eight digits returns the byte |
| Bits.ByteToBitsOfBitsToByte | logic.py:21 | writing out the digits of a repacked byte returns the eight bits |
| Bits.Expand | logic.py:78 | the bit string of the bytes has 8 bits per byte; `ExpandIndex` fixes each bit and `PackExpand`/`ExpandPack` make `Pack` its inverse |
| Bits.ExpandIndex | logic.py:78 | in the bit string of a byte sequence, bit 8j+k is bit k (MSB first) of byte j |
| Bits.Pack | logic.py:21 | eight bits repack to one byte, so the result has a byte per 8 bits; `PackIndex` fixes each bit |
| Bits.PackIndex | logic.py:118 | repacking 8 bits to a byte: bit k of byte j is input bit 8j+k |
| Bits.PackExpand | logic.py:118 | repacking the expanded bits returns the original bytes |
| Bits.ExpandPack | logic.py:21 | expanding repacked bytes returns the original bit string |
| Bits.ExpandAppend | logic.py:67-78 | the bits of header + payload are the header's bits followed by the payload's |
| Bits.UInt32ToBytes | logic.py:12-13 | `to_bytes(4, 'big')` yields four bytes and is only defined for 0 <= n < 2^32 |
| Bits.BytesToUInt32 | logic.py:27-28 | `int.from_bytes(4 bytes, 'big')` is below 2^32 |
| Bits.UInt32RoundTrip | logic.py:12-13 | decoding the big-endian bytes of any n in [0, 2^32) gives n |
| Bits.BytesRoundTrip | logic.py:27-28 | encoding the value of any four bytes gives those bytes |
| Bits.BytesToUInt32Digits | logic.py:27-28 | the value of four bytes is b0·2^24 + b1·2^16 + b2·2^8 + b3, the first byte most significant |
| Bits.ValueOfIntToBits | logic.py:12-13 | the n binary digits of any x in [0, 2^n) have value x |
| Bits.IntToBitsOfValue | logic.py:27-28 | the binary digits of a bit string's value, at its width, are that bit string |
| Bits.ValueOfAppend | logic.py:27-28 | the value of a + b is value(a)·2^len(b) + value(b) |
| Bits.ByteValue | logic.py:23 | the number a byte stands for is below 256; `ByteOfValue` and `ByteValueOf` make `ByteOf` its inverse |
| Bits.ByteOf | logic.py:10 | `flags.to_bytes(1, 'big')`: the byte whose value is the given number in [0, 256) |
| Bits.ByteValueOf | logic.py:10 | `flags.to_bytes(1, 'big')` for flags in [0, 256) is the byte whose value is flags |
| Bits.ByteOfValue | logic.py:23 | the byte read back as a number and rewritten is the same byte |
| Bits.ByteValueZero | logic.py:23 | a byte has value 0 iff it is the zero byte |
| LsbCodec.SetLsb | logic.py:81 | the new frame's LSB is the bit and its upper seven bits are the old ones |
| LsbCodec.ReadLsbs | logic.py:115 | the bits read are, in order, the LSBs of `count` frames starting at `start` |
| LsbCodec.EmbedBits | logic.py:80-81 | same length as the cover; frame i's LSB is bit i for every bit written, the upper seven bits of every frame are kept, and frames past the bits are unchanged |
| LsbCodec.Embed | logic.py:74-81 | fails with CoverTooSmall iff 8·len(data) > len(cover). Otherwise: same length; frame 8j+k's LSB is bit k of byte j; upper 7 bits of every frame unchanged; frames from 8·len(data) on unchanged |
| LsbCodec.EmbedInPlace | logic.py:78-81 | the in-place loop over a mutable copy of the frames computes exactly `Embed` (capacity check first, nothing written on failure) |
| LsbCodec.ExtractBytes | logic.py:109-118 | fails with FileCorrupted iff start + 8·count > len(frames); otherwise count bytes, bit k of byte j being the LSB of frame start+8j+k |
| LsbCodec.EmbedCarries | logic.py:74-81 | whenever the data fits, embedding succeeds and the LSBs of frames from 0 spell the data's bits |
| LsbCodec.EmbedCarriesBoth | logic.py:67-81 | embedding header + payload leaves the header readable from frame 0 and the payload from frame 8·len(header) |
| LsbCodec.CarriesSplit | logic.py:67 | frames carrying header + payload carry the header at frame 0 and the payload at frame 8·len(header) |
| LsbCodec.ExtractCarried | logic.py:113-118 | extracting len(data) bytes at `start` from frames that carry `data` there returns `data` |
| LsbCodec.ExtractReadsOnlyLsbs | logic.py:115 | extraction depends only on the LSBs of the frames in its window |
| HeaderCodec.PadName | logic.py:11 | `ljust(255, b'\0')`: the name followed by zeros up to 255 bytes, never truncated |
| HeaderCodec.CreateHeaderAsWritten | logic.py:8-14 | fails with FieldOverflow iff flags is outside [0, 256) or a size is outside [0, 2^32); otherwise the header is 1 + max(len(name), 255) + 8 bytes long |
| HeaderCodec.CreateHeader | logic.py:8-14 | rejects names over 255 bytes and out-of-range fields; otherwise 264 bytes: byte 0 has the value of the flags, bytes 1.. the name, zeros up to byte 255, bytes 256..259 the original size and 260..263 the payload size, big-endian |
| HeaderCodec.StripTrailingZeros | logic.py:26 | `rstrip(b'\0')`: a prefix of the input, not ending in a zero, with only zeros cut off |
| HeaderCodec.StripPadded | logic.py:26 | stripping a name followed by zero padding returns the name, if the name does not end in NUL |
| Utf8.WellFormed | logic.py:26 | the strict `.decode('utf-8')` accepts the bytes: never a leading continuation byte, and no byte 0xC0, 0xC1 or above 0xF4 anywhere |
| HeaderCodec.ParseHeaderBytes | logic.py:21-29 | succeeds iff bytes 1..255 with trailing zeros stripped are well-formed UTF-8, failing with FilenameNotUtf8 otherwise. On success the name is those stripped bytes: a prefix of the field, followed only by zeros, not ending in NUL. The flags are bits 0 and 1 of byte 0, and the sizes are the big-endian values of bytes 256..259 and 260..263 |
| HeaderCodec.NonUtf8NameRejected | logic.py:26 | a name field whose first byte is 0xFF fails to decode, so the parse fails with FilenameNotUtf8 |
| HeaderCodec.ParseHeader | logic.py:16-26 | fails with StegoTooSmall iff fewer than 264·8 frames; otherwise fails with FilenameNotUtf8 iff the name field repacked from the first 2112 frame LSBs, stripped of trailing zeros, is not well-formed UTF-8, and succeeds otherwise |
| HeaderCodec.ParseLayout | logic.py:21-29 | 264 bytes holding a UTF-8 name without trailing NUL, zero padding and two big-endian sizes parse to that name, those sizes and flag bits 0 and 1 of byte 0 |
| HeaderCodec.StripNameField | logic.py:26 | a name field holding a name not ending in NUL, then zeros, strips to that name |
| HeaderCodec.HeaderRoundTrip | logic.py:8-29 | parsing a created header returns its name, both sizes and flag bits 0 and 1, for a UTF-8 name without trailing NUL |
| HeaderCodec.ParseCarriedHeader | logic.py:16-29 | parsing frames whose LSBs carry a created header returns that header's fields |
| HeaderCodec.ParseReadsOnlyHeaderFrames | logic.py:17-20 | the parse depends only on the LSBs of the first 2112 frames |
| HeaderCodec.LongNameMisparsed | logic.py:11 | a 256-byte name of letters `a` gives a 265-byte header for any sizes; its first 264 bytes parse, and to an original size of at least 2^24, whatever size was written |
| HeaderCodec.TrailingNulDropped | logic.py:26 | a UTF-8 name followed by one NUL, written into a header, parses back as the name without the NUL |
| CipherEngine.DeriveKey | security.py:17-19 | the key is the PBKDF2 output for the passphrase, the salt and 100,000 iterations, `KEY_SIZE` (32) bytes long by its type |
| CipherEngine.StoredSaltGivesKey | security.py:59-63 | the salt `decrypt_file` reads back from a blob derives the same key that `encrypt_file` used |
| CipherEngine.Ctr | security.py:39 | the GCM counter-mode transform keeps the length; `CtrInvolutive` makes it its own inverse and `CtrAppend` lets it run chunk by chunk |
| CipherEngine.CtrInvolutive | security.py:78 | decrypting at the offsets the encryption used returns the plaintext |
| CipherEngine.CtrAppend | security.py:35-41 | encrypting chunk by chunk at running offsets equals encrypting the whole input at once |
| CipherEngine.Encrypt | security.py:21-44 | the blob is 52 bytes longer than the plaintext and starts with MAGIC, then the salt, then the nonce |
| CipherEngine.Decrypt | security.py:46-94 | BlobTooSmall iff fewer than 52 bytes; BadMagic iff the first 8 bytes are not "AESGCMv1"; on success the stored tag equals the tag of the ciphertext, and the plaintext is 52 bytes shorter than the blob and encrypts back to the ciphertext |
| CipherEngine.DecryptEncrypt | security.py:21-94 | decrypting an encrypted blob under the same passphrase verifies its tag and returns the plaintext |
| CipherEngine.TamperedCiphertextRejected | security.py:88-94 | changing the ciphertext, so that the tag function tells the two apart, makes decryption fail with AuthenticationFailed |
| CipherEngine.Read | security.py:36 | `fin.read(n)` at a position returns min(n, bytes left) bytes, the next ones of the file |
| CipherEngine.Chunks | security.py:35-38 | the encrypt loop reads ⌈len/64 KiB⌉ nonempty chunks; `ChunksPartition` states that they partition the input |
| CipherEngine.ChunksPartition | security.py:35-38 | the reads partition the input; no chunk is empty or above 64 KiB, and all but the last are full |
| CipherEngine.CtrLoopStep | security.py:35-40 | in either chunk loop, a read before the end returns a nonempty chunk, the next of the partition, whose transformation extends the output so far |
| CipherEngine.EncryptChunks | security.py:35-40 | the loop, reading until a read is empty, outputs the counter-mode encryption of the whole plaintext, reading exactly the partition's chunks |
| CipherEngine.EncryptStream | security.py:21-44 | the streaming writer outputs exactly the `Encrypt` blob |
| CipherEngine.CiphertextRead | security.py:74 | a read at a ciphertext offset returns the next bytes of the blob's ciphertext field |
| CipherEngine.DecryptChunks | security.py:67-80 | the decrypt loop, reading min(64 KiB, bytes left) until none are left, consumes exactly the blob's ciphertext, writes its counter-mode transformation, and reads exactly the chunks `Chunks` gives for it |
| CipherEngine.DecryptStream | security.py:46-94 | the chunk loop returns exactly `Decrypt`. The output file holds the plaintext iff decryption succeeded, is removed on a tag mismatch, and is never opened on a length or magic failure. Once the length and magic checks pass, its reads are exactly the chunks of the ciphertext as the encrypt loop split it |
| Pipeline.Payload | logic.py:40-58 | the secret itself when neither switch is on; with encryption a blob starting with MAGIC, and exactly 52 bytes longer than the secret when not compressed; `UnpackPayload` undoes it |
| Pipeline.Flags | logic.py:36-53 | bit 0 set iff compressing, bit 1 set iff encrypting, no other bit set |
| Pipeline.Hide | logic.py:31-88 | succeeds iff the header builds and (264 + len(payload))·8 <= len(cover). A header error (FilenameTooLong, FieldOverflow) is returned as is, and CoverTooSmall occurs iff the header builds but does not fit with the payload. On success: same length, only LSBs change, frames past header and payload unchanged |
| Pipeline.HideCarries | logic.py:66-81 | the stego frames carry the created header from frame 0 and the payload from frame 2112 |
| Pipeline.Decompress | logic.py:140-142 | fails with DecompressFailed exactly when zlib rejects the data |
| Pipeline.Truncate | logic.py:144 | `data[:n]`: a prefix of length min(len(data), n) |
| Pipeline.Unpack | logic.py:124-142 | an unflagged payload is returned as is. With the encrypted flag a failed decryption (BlobTooSmall, BadMagic, AuthenticationFailed) is returned as the result, never a plaintext; otherwise the decrypted bytes go on to decompression if the compressed flag is set. A zlib rejection gives DecompressFailed. A decompression error only occurs with the compressed flag and a decryption error only with the encrypted flag |
| Pipeline.UnpackPayload | logic.py:40-142 | undoing the payload as its flags say returns the secret, for all four compress/encrypt combinations |
| Pipeline.Extract | logic.py:96-146 | header errors pass through; FileCorrupted when the payload size points past the frames; otherwise a decryption or decompression error of the extracted payload passes through, so tampered data or a wrong passphrase is never returned. On success the result is the unpacked payload cut to the header's original size, with the header's filename |
| Pipeline.HideExtractRoundTrip | logic.py:31-146 | extracting what hiding produced returns the secret and its filename, for all four compress/encrypt combinations |
| Pipeline.CapacityBoundary | logic.py:74-75 | uncompressed and unencrypted: hiding succeeds iff (264 + len(secret))·8 <= len(cover), so an exact fit succeeds; otherwise the error is CoverTooSmall |
| Pipeline.TenThousandFramesHoldFiveBytes | logic.py:74-75 | a 5-byte secret fits in 10,000 frames |

## Left out

- WAV reading and writing (`wave.open`, `getparams`/`setparams`), temporary files and file reads are I/O plumbing. The cover is modelled as an in-memory frame sequence, so the audio parameters are trivially preserved.
- The progress callback is a fire-and-forget side effect with float fractions.
- zlib is a foreign library. It is an opaque `Zlib` record, and the round trip assumes `decompress(compress(secret)) == Some(secret)`.
- The internals of AES-256-GCM, PBKDF2-HMAC-SHA256 and `get_random_bytes` are foreign cryptography and randomness. The iteration count is the constant passed to the opaque key derivation; the key size is the length of the `Key` type it returns.
- UTF-8 encoding of the filename and passphrase is left out. A Python string with lone surrogates would make `encode` raise, and that case is not modelled.
- The decoded filename is kept as its bytes rather than as a string.
- `decrypt_file` has an "unexpected end of file" branch and a "tag missing" branch. Both are unreachable for an in-memory blob of known size. The model proves they are never taken rather than modelling a file that shrinks between `getsize` and `read`.
- The GUI, threads and dialogs are left out, and so is the hardcoded application passphrase of the UI. The passphrase is an explicit parameter.
- CipherEngine.TamperedCiphertextRejected: this is weaker than GCM's forgery resistance. It assumes the tag function distinguishes the forged ciphertext, because GCM's security is not modelled.
- Pipeline.Hide: builds the header with the corrected `HeaderCodec.CreateHeader`, not with `create_header` as written. A filename whose UTF-8 encoding exceeds 255 bytes makes `hide_data` succeed with a header longer than 264 bytes. The model fails with `FilenameTooLong` instead. The as-written behaviour is `HeaderCodec.CreateHeaderAsWritten`, and `HeaderCodec.LongNameMisparsed` shows what it leads to (see Findings).

## Findings

| source | as written | input that shows it | evidently intended | confidence | as-written member | corrected member |
|---|---|---|---|---|---|---|
| logic.py:11 | `ljust(255, b'\0')` pads but neither truncates nor rejects a longer name, so the header grows past 264 bytes while the parser reads a fixed 264 | a filename of 256 bytes `a`, sizes 5 and 5: the header is 265 bytes and the parser reads an original size of at least 2^24 (0x61000000) | reject filenames whose UTF-8 encoding exceeds 255 bytes | high; not executed | HeaderCodec.LongNameMisparsed | HeaderCodec.CreateHeader |
