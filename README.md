# ncmdump-rust in Dafny

A model of `process_file` and `build_key_box` of ncmdump-rust. Together they
convert a NetEase Cloud Music `.ncm` container into a plain MP3 or FLAC file.

The converter does these steps in order:

1. Check the two magic words "CTEN" and "FDAM".
2. Read the key blob and XOR it with 0x64. Decrypt it with the core AES key and keep the bytes from offset 17. These bytes are the key.
3. Build a 256-byte substitution table (the *key box*) from the key with a swap schedule.
4. Read the metadata blob and XOR it with 0x63. Drop 22 bytes, base64-decode, decrypt with the modify key, drop 6 bytes, check UTF-8 and parse JSON.
5. Derive the output name from the input file's name.
6. Skip 9 bytes and read the cover image.
7. Decrypt the rest of the file in 0x8000-byte chunks with a keystream drawn from the key box, and write each whole buffer to a scratch file.
8. Let a FLAC detector, run on the scratch file, choose the extension.
9. Build an ID3v2.3 or Vorbis-comment tag from the metadata and the cover.

Modules:

- `Common` (common.dfy): bytes, byte XOR, the error values, the `Result` type, and the in-place XOR de-obfuscation loop.
- `KeyBox` (keybox.dfy): the key schedule as a specification function. Also the in-place builder method and the proof that the table is a permutation of 0..255.
- `Stream` (stream.dfy): the keystream and the chunk loop.
  - The loop exactly as written: the whole buffer is XORed and written every time.
  - The corrected loop: only the bytes read are written.
- `FileName` (filename.dfy): dropping the last four UTF-8 bytes of the name, and folding the eight-entry substitution table over the result.
- `Json` (json.dfy): a JSON value and the lookups the tag mapping uses.
- `Tags` (tags.dfy): the cover MIME sniff, the artist list, the `/` join and the assembled tag.
- `Container` (container.dfy): the cursor walk over the file as pure functions over the bytes. It includes:
  - the encoder of well-formed containers;
  - the proof that parsing an encoded container gives back its fields.
- `Convert` (convert.dfy): the whole conversion as one function. It also holds `ProcessFile`, the imperative cursor walk that is proved equal to that function.

A byte is a `newtype` over `int` in 0..255 rather than `bv8`, so that indices, `% 256` sums and multisets of bytes need no conversions; XOR is defined bit by bit on it (`Common.Xor`).

Integers in the key schedule are unbounded `int`s taken `% 256`. The source sums at most 3 × 255 in a `u64` and masks with `& 0xff`, so the two agree. `NativeEndian` is read as little-endian.

Each `panic!`, `expect` or `unwrap` on the path from the magic check to the tag value is an `Err` value of `Common.Error`, except the file-name unwraps listed under "## Left out". That covers the magic words (src/main.rs:91, 95), the key and metadata decoding (lines 107-130), the name cut (line 142) and the tag fields (lines 208, 216-220). A failing `?` on `read_exact` is `Err(Truncated)`. The panics outside that path are listed under "## Left out".

The header words are read with `f.read` into one reused 4-byte buffer. Near the end of the file such a read overwrites only a prefix of the buffer. The rest keeps its previous bytes, and a seek past the end is allowed. The model does the same: `Convert.ReadWordInto` overwrites a 4-byte array in place, and `Convert.ProcessFile` creates that array once and passes it to every header read.

Where the code and its description disagree, the model follows the code:

- The output name drops the last four **bytes** of the UTF-8 file name, not four characters. A name with fewer than four bytes, or one whose cut falls inside a character, has no stem, and the conversion stops with `BadFileName`.
- The audio is what the chunk loop writes: one whole 0x8000-byte buffer per read, so after a short last read the output carries stale bytes past the payload's end (see Findings). The FLAC detector and the copied file see those bytes too. The corrected loop is modelled beside it (`Stream.DecryptPayload`) but is not what `Convert` uses.
- A cover of fewer than 8 bytes makes `img_data[..8]` panic only when there is metadata. The audio file has already been written by then.

## Model

| member | source | states |
|---|---|---|
| KeyBox.BuildKeyBox | src/main.rs:33-53 | The table built in place is exactly the 256-step swap schedule started from the identity (with c = (box[i] + last + key[i mod len]) mod 256 and last := c), and it is a permutation of 0..255; the key must be non-empty |
| KeyBox.KeyBoxIsPermutation | src/main.rs:37-51 | For every non-empty key the finished key box holds each byte value exactly once |
| KeyBox.ScheduleKeepsEntries | src/main.rs:44-51 | After any number of steps the table holds the same multiset of entries as the identity table |
| KeyBox.ScheduleKeepsDistinct | src/main.rs:44-51 | After any number of steps no value occurs twice in the table |
| Common.Deobfuscate | src/main.rs:104 | The in-place loop XORs every byte of the blob with the mask and changes nothing else |
| Common.XorMaskInvolution | src/main.rs:104 | De-obfuscation keeps the length, and applying it twice gives back the blob |
| Container.LE32OfU32Bytes | src/main.rs:99-100 | Reading a little-endian u32 from the four bytes of n gives n back |
| Container.U32BytesOfLE32 | src/main.rs:99-100 | Every 4-byte word is the little-endian encoding of the value read from it |
| Container.ReadWord | src/main.rs:89-99 | `f.read(&mut buf)` of a word advances the position by min(4, bytes left) and leaves a 4-byte word |
| Container.ReadWordBytes | src/main.rs:89-99 | Each byte of the new word is the file's byte at that offset when one was left, and otherwise the byte the buffer held before |
| Container.ReadExact | src/main.rs:101-103 | `read_exact` of n bytes succeeds exactly when n is 0 or at least n bytes are left, and then yields exactly the next n bytes of the file |
| Container.ReadBlob | src/main.rs:111-116 | Reading a length-prefixed field fails only with Truncated |
| Container.ReadBlobFailsIff | src/main.rs:98-103 | A length-prefixed field fails to read exactly when the length word is non-zero and fewer bytes follow it than it declares |
| Container.RecoverKey | src/main.rs:103-110 | A recovered key is never empty, and a failure is one of the three key errors (decrypt failed, slice out of range, empty key) |
| Container.RecoverKeyNeeds18Bytes | src/main.rs:107-110 | The key is recovered exactly when the blob decrypts to at least 18 bytes, and it is then the decryption without its 17-byte header |
| Container.KeyIgnoresHeader | src/main.rs:110 | Two key blobs whose decryptions agree from offset 17 on give the same key |
| Container.DecodeMetadata | src/main.rs:117-131 | A metadata failure is one of the six decoding errors: header too short, base64, decryption, prefix too short, UTF-8 or JSON |
| Container.MetadataNeedsHeader | src/main.rs:117-124 | Decoding fails with MetaHeaderTooShort exactly when the blob has fewer than 22 bytes |
| Container.MetadataDecodes | src/main.rs:117-131 | Decoding yields document v exactly when the blob has its 22-byte header, base64 and decryption succeed with at least 6 bytes, the bytes from offset 6 are UTF-8, and their text parses as v |
| Container.MetadataIgnoresHeader | src/main.rs:117-124 | Two metadata blobs whose de-obfuscated bytes agree from offset 22 on decode to the same result |
| Container.MetadataIgnoresPrefix | src/main.rs:125-129 | Two metadata blobs whose decryptions both succeed with at least 6 bytes and agree from offset 6 on decode to the same result |
| Container.MetadataNeedsPrefix | src/main.rs:125-129 | Decoding fails with MetaPrefixTooShort exactly when the blob has its 22-byte header, base64 and decryption succeed, and the decryption has fewer than 6 bytes |
| Container.MetadataOf | src/main.rs:113-138 | A zero-length metadata field (and only that) gives no metadata and no error; a non-empty one gives Some of the decoded document when decoding succeeds, and decoding's error otherwise |
| Container.CoverOf | src/main.rs:153-164 | A zero-length image field, and only that, gives no cover; otherwise the cover is the image bytes |
| Container.ParseContainer | src/main.rs:88-164 | A successfully parsed container has a non-empty key |
| Container.MagicChecked | src/main.rs:88-96 | Reading the key section, and the whole parse, fail with NotNcm exactly when the file does not start with the bytes "CTENFDAM" |
| Container.ParseEncoded | src/main.rs:88-164 | For every container laid out as magic, 2 skipped bytes, length-prefixed key blob, length-prefixed metadata, 9 skipped bytes, length-prefixed cover and audio, parsing returns the key recovered from the key blob, the metadata decoded from the metadata blob (none when empty), the cover (none when empty) and exactly the audio |
| Stream.DecryptChunk | src/main.rs:173-176 | The in-place loop XORs every byte of the buffer with the keystream byte of its offset, kbox[(kbox[j] + kbox[(kbox[j] + j) mod 256]) mod 256] with j = (i + 1) mod 256 |
| Stream.XorKeystreamInvolution | src/main.rs:173-176 | One XOR pass keeps the buffer's length and a second pass restores the buffer |
| Stream.ReadInto | src/main.rs:169-172 | A read returns min(0x8000, bytes left), which is 0 exactly at the end of the payload; it overwrites that many bytes at the front of the buffer, and the rest keeps its previous bytes |
| Stream.WritePayload | src/main.rs:165-177 | The loop as written emits, for each read, the XOR of the whole buffer (fresh bytes followed by what the buffer held before) |
| Stream.WrittenStreamLength | src/main.rs:165-177 | The bytes written are 0x8000 times the number of reads that returned bytes, that is a whole number of buffers |
| Stream.WrittenStreamPrefix | src/main.rs:165-177 | The bytes written are at least as many as the payload's, and their first len(payload) bytes are the decrypted payload |
| Stream.LeftoverIsPreviousCiphertext | src/main.rs:173-177 | For a payload of one full chunk and a shorter second one, the bytes written past the payload's end are the first chunk's encrypted bytes |
| Stream.ShortPayloadWrittenAsFullChunk | src/main.rs:165-177 | A one-byte payload is written as 0x8000 bytes, while the decryption proper has one byte |
| Stream.DecryptPayload | src/main.rs:165-177 | The corrected loop, which writes only the bytes each read returned, produces exactly the chunk-wise decryption of the payload |
| Stream.DecryptStreamAt | src/main.rs:165-176 | Decryption keeps the length, and payload byte k is XORed with the keystream byte of offset k mod 0x8000 |
| Stream.SameKeystreamEveryChunk | src/main.rs:168-176 | Bytes 0x8000 apart are XORed with the same keystream byte, so every chunk uses the same keystream |
| Stream.DecryptStreamInvolution | src/main.rs:165-176 | Decrypting the decrypted payload gives back the payload |
| FileName.DropLastBytesSpec | src/main.rs:142 | `s.get(0..s.len() - 4)` is the prefix s[..m] exactly when the suffix s[m..] is four UTF-8 bytes long |
| FileName.Sanitised | src/main.rs:22-31 | The fold of the substitution table keeps the number of characters, maps each forbidden character to its fullwidth form and keeps every other one, and leaves none of the eight forbidden characters |
| FileName.OutputStemOfAsciiExtension | src/main.rs:139-144 | A name ending in four ASCII characters (such as ".ncm") gives the sanitised name without them, with as many characters as that stem |
| FileName.OutputStemOfShortName | src/main.rs:142 | A name shorter than four bytes gives no stem |
| Tags.CoverMimeSniff | src/main.rs:207-215 | The MIME type is "image/png" exactly when the cover starts with the 8-byte PNG signature and "image/jpeg" exactly for other covers of at least 8 bytes; a shorter cover fails |
| Tags.Artists | src/main.rs:221-227 | The artist list has one name per entry of a JSON array and none otherwise; each name is the entry's first element when that is a string, and the empty name otherwise |
| Tags.ArtistsOfEntries | src/main.rs:221-227 | An artist array whose entries each start with a name gives back exactly those names, in order |
| Tags.SplitJoin | src/main.rs:233 | Splitting the MP3 artist string at '/' gives back the artist names, when there is at least one and none contains '/' |
| Tags.AssembleTagFields | src/main.rs:216-262 | A built tag carries the document's musicName and album, ID3 exactly for MP3 with the artists joined by '/', Vorbis for FLAC with one title, one album and the artist list, and the cover exactly when there is one, with its sniffed MIME type |
| Tags.AssembleTagFailures | src/main.rs:207-220 | Building the tag fails exactly when the cover is shorter than 8 bytes, musicName or album is not a string, or bitrate or duration is not an i64 |
| Convert.Convert | src/main.rs:86-198 | The conversion fails with NotNcm exactly when reading the header does |
| Convert.ConvertRejectsWithoutMagic | src/main.rs:88-96 | The conversion reports NotNcm exactly for files that do not start with "CTENFDAM" |
| Convert.ConvertIsParseThenDecrypt | src/main.rs:86-198 | With a usable file name, the conversion succeeds exactly when the container parses, otherwise fails with the parser's error; the audio is what the chunk loop writes for the parsed payload under the key box of the parsed key, and the name and tag follow the chosen format |
| Convert.BadNameAfterMetadata | src/main.rs:110-144 | A bad file name fails the conversion, and the error is BadFileName exactly when the key and the metadata were read and decoded |
| Convert.ConvertEncoded | src/main.rs:86-263 | Converting a well-formed container succeeds; the output audio is 0x8000 times the number of chunks long and its first len(payload) bytes decrypt back to the payload, the tag outcome is Untagged exactly when there is no metadata, a tag is built exactly when there is metadata whose fields (and cover) the tag writer accepts, and a built tag has a picture exactly when there is a cover |
| Convert.ProcessFile | src/main.rs:86-198 | The step-by-step walk (header words read into one reused 4-byte array, in-place de-obfuscation, the key box built in a table, the chunk loop as written) returns exactly the conversion |
| Convert.ReadWordInto | src/main.rs:88-99 | A read into the 4-byte array overwrites its front with the bytes left in the file, up to four, and keeps the rest; the new position and array contents are the word read |
| Convert.ReadKeySection | src/main.rs:88-103 | Reading both magic words, the skip and the key blob through the zeroed buffer returns exactly the key section, and leaves the buffer holding the key length word |
| Convert.ReadKey | src/main.rs:104-110 | De-obfuscating in place, decrypting and slicing returns exactly the recovered key |
| Convert.ReadMetaSection | src/main.rs:111-138 | Reading the metadata section through the buffer fails as the field read or its decoding fails; otherwise it returns the decoded metadata (none for length 0) and the position after the field, with the length word left in the buffer |
| Convert.ReadSection | src/main.rs:150-157 | A length word read into the buffer, whatever stale bytes the buffer holds, and then that many bytes: exactly the field and the position after it, with the length word left in the buffer |
| Convert.ReadMetadata | src/main.rs:114-131 | De-obfuscating in place and then decoding returns exactly the decoded metadata |

## Left out

- AES-128-ECB decryption with PKCS#7 padding (`decrypt`, src/main.rs:55-84): a field of the `Library` parameter. `None` stands for the `expect` failing.
- Base64 decoding, the UTF-8 check and JSON parsing: also fields of the `Library` parameter.
- The JSON value is a datatype with the lookups `value[key]`, `value[i]`, `as_str` and `as_i64`.
- MP3/FLAC detection by `metaflac::Tag::read_from_path` on the temporary file: the `isFlac` parameter.
- Writing the ID3v2.3 and Vorbis tags (src/main.rs:228-262): the model stops at the tag value handed to the writer.
  - It does not model merging with a tag already in the MP3 (`read_from_path(...).unwrap_or(new)`).
  - It does not model the failure to re-read the FLAC file before tagging.
- Opening the input, the temporary file, `std::fs::copy` and dropping the handle: the file is a byte sequence and the file name a string parameter.
- I/O errors other than a short `read_exact`.
- Operating-system short reads in the middle of the file: `f.read` returns as many bytes as are left, up to the buffer size.
- Command-line parsing and `println!`.
- The `u32` widths of the length fields are not bounded: a field read from four bytes is below 2^32 anyway.
- `Vec::with_capacity` allocation failure.
- The file name taken from the path: `path.file_name().unwrap().to_str().unwrap()` (src/main.rs:135, 139, 161) panics on a path without a file name or with a name that is not UTF-8. The model's `fileName` is already a string, so neither case arises.
- The remaining panics: opening the input (line 87), writing the MP3 tag (line 247), re-reading and writing the FLAC file (lines 252, 261), and the `unwrap` and `expect` in `main` (lines 271, 273). They lie outside the modelled steps.
- Short writes: `tmp.write(&buffer)` (not `write_all`) may write fewer bytes than the buffer holds; the model assumes every write is complete.

## Findings

| source | as written | input that shows it | evidently intended | confidence | as-written member | corrected member |
|---|---|---|---|---|---|---|
| src/main.rs:173-177 | After each read of n bytes, the XOR runs over all 0x8000 bytes of the buffer and the whole buffer is written | A 1-byte payload produces 0x8000 bytes of output. A payload of 0x8000 + 1 bytes ends with 0x7fff bytes of the first chunk's ciphertext | XOR and write only the n bytes read, so the output is as long as the payload | medium, not executed | Stream.WritePayload, Stream.ShortPayloadWrittenAsFullChunk, Stream.LeftoverIsPreviousCiphertext | Stream.DecryptPayload, Stream.DecryptStreamInvolution, Stream.WrittenStreamPrefix |
