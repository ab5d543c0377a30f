/** The forward walk over an .ncm container:
      "CTEN" "FDAM" | 2 skipped | u32 key_len | key blob | u32 meta_len |
      metadata blob | 9 skipped | u32 img_len | cover image | audio payload
    All words are little-endian. The key blob is XORed with 0x64 and
    AES-decrypted with the core key; the metadata blob is XORed with 0x63,
    stripped of 22 bytes, base64-decoded, AES-decrypted with the modify key,
    stripped of 6 bytes and parsed as JSON. AES, base64, the UTF-8 check
    and the JSON parser are library code and stay abstract. */
module Container {
  import opened Common
  import Json

  /** The AES-128 key of the key blob (`AES_CORE_KEY`). */
  const CoreKey: seq<byte> :=
    [0x68, 0x7A, 0x48, 0x52, 0x41, 0x6D, 0x73, 0x6F, 0x35, 0x6B, 0x49, 0x6E, 0x62, 0x61, 0x78, 0x57]
  /** The AES-128 key of the metadata (`AES_MODIFY_KEY`). */
  const ModifyKey: seq<byte> :=
    [0x23, 0x31, 0x34, 0x6C, 0x6A, 0x6B, 0x5F, 0x21, 0x5C, 0x5D, 0x26, 0x30, 0x55, 0x3C, 0x27, 0x28]

  /** The two magic words read as little-endian u32: "CTEN" and "FDAM". */
  const Magic1: nat := 0x4e455443
  const Magic2: nat := 0x4d414446
  const MagicBytes: seq<byte> := [0x43, 0x54, 0x45, 0x4E, 0x46, 0x44, 0x41, 0x4D]

  const KeyMask: byte := 0x64
  const MetaMask: byte := 0x63
  /** Bytes dropped: from the decrypted key, from the de-obfuscated
      metadata before base64, from the decrypted metadata before JSON. */
  const KeyHeader: nat := 17
  const MetaHeader: nat := 22
  const MetaPrefix: nat := 6

  /** The library calls the program makes: AES-128-ECB decryption with
      PKCS#7 padding removal under a key, base64 decoding, the UTF-8 check
      and the JSON parser. Each gives nothing on failure. */
  datatype Library = Library(
    aesDecrypt: (seq<byte>, seq<byte>) -> Option<seq<byte>>,
    base64Decode: seq<byte> -> Option<seq<byte>>,
    utf8Decode: seq<byte> -> Option<string>,
    jsonParse: string -> Option<Json.Value>)

  /** `NativeEndian::read_u32`, read as little-endian. */
  function LE32(w: seq<byte>): (r: nat)
    requires |w| == 4
  {
    w[0] as nat + 256 * (w[1] as nat + 256 * (w[2] as nat + 256 * w[3] as nat))
  }

  /** The four little-endian bytes of a u32. */
  function U32Bytes(n: nat): (w: seq<byte>)
    requires n < 0x1_0000_0000
    ensures |w| == 4
  {
    var q1 := n / 256;
    var q2 := q1 / 256;
    [(n % 256) as byte, (q1 % 256) as byte, (q2 % 256) as byte, (q2 / 256) as byte]
  }

  /** Reading back the bytes of a word gives the word. */
  lemma LE32OfU32Bytes(n: nat)
    requires n < 0x1_0000_0000
    ensures LE32(U32Bytes(n)) == n
  {
    var q1 := n / 256;
    var q2 := q1 / 256;
    var q3 := q2 / 256;
    assert q3 < 256;
    assert q2 == q2 % 256 + 256 * q3;
    assert q1 == q1 % 256 + 256 * q2;
    assert n == n % 256 + 256 * q1;
  }

  /** A word read determines its four bytes. */
  lemma U32BytesOfLE32(w: seq<byte>)
    requires |w| == 4
    ensures LE32(w) < 0x1_0000_0000
    ensures U32Bytes(LE32(w)) == w
  {
    var n := LE32(w);
    var r1 := w[1] as nat + 256 * (w[2] as nat + 256 * w[3] as nat);
    var r2 := w[2] as nat + 256 * w[3] as nat;
    assert n == w[0] as nat + 256 * r1;
    DivMod256(w[0] as nat, r1);
    DivMod256(w[1] as nat, r2);
    DivMod256(w[2] as nat, w[3] as nat);
  }

  /** Splitting off the low byte of a + 256 * b. */
  lemma DivMod256(a: nat, b: nat)
    requires a < 256
    ensures (a + 256 * b) % 256 == a && (a + 256 * b) / 256 == b
  {
  }

  /** The file position and the reused 4-byte word buffer `buf`. The
      position may pass the end of the file: seeking there is allowed and
      reads there return nothing. */
  datatype Cursor = Cursor(pos: nat, word: seq<byte>)

  /** Bytes left in the file at a position. */
  function Available(data: seq<byte>, pos: nat): (r: nat) {
    if pos < |data| then |data| - pos else 0
  }

  /** `f.read(&mut buf)` of a word: up to four bytes overwrite the front of
      the buffer; with fewer than four bytes left, the rest of the buffer
      keeps the previous word's bytes. */
  function ReadWord(data: seq<byte>, cur: Cursor): (next: Cursor)
    requires |cur.word| == 4
    ensures |next.word| == 4
    ensures next.pos == cur.pos + Min(4, Available(data, cur.pos))
  {
    var k := Min(4, Available(data, cur.pos));
    if k == 0 then cur
    else Cursor(cur.pos + k, data[cur.pos..cur.pos + k] + cur.word[k..])
  }

  /** Byte by byte: each byte of the new word is the file's byte at that
      offset if one was left to read, or else the previous word's byte. */
  lemma ReadWordBytes(data: seq<byte>, cur: Cursor, i: nat)
    requires |cur.word| == 4 && i < 4
    ensures var next := ReadWord(data, cur);
      next.word[i] == if cur.pos + i < |data| then data[cur.pos + i] else cur.word[i]
  {
  }

  /** `f.seek(SeekFrom::Current(k))`. */
  function Seek(cur: Cursor, k: nat): (r: Cursor) {
    Cursor(cur.pos + k, cur.word)
  }

  /** `f.read_exact` of n bytes: fails when fewer are left. */
  function ReadExact(data: seq<byte>, pos: nat, n: nat): (r: Result<seq<byte>>)
    ensures r.Ok? <==> n == 0 || n <= Available(data, pos)
    ensures r.Ok? ==> |r.value| == n
    ensures r.Ok? && n > 0 ==> r.value == data[pos..pos + n]
  {
    if n == 0 then Ok([])
    else if Available(data, pos) < n then Err(Truncated)
    else Ok(data[pos..pos + n])
  }

  /** A value read from the file and the cursor after it. */
  datatype Step<+T> = Step(value: T, next: Cursor)

  /** The key for the key box: de-obfuscate, decrypt with the core key and
      keep the bytes from offset 17 on. Fewer than 17 decrypted bytes make
      the slice panic; exactly 17 leave an empty key, on which the key
      schedule divides by zero. */
  function RecoverKey(blob: seq<byte>, lib: Library): (r: Result<seq<byte>>)
    ensures r.Ok? ==> |r.value| > 0
    ensures r.Err? ==> r.error in {KeyDecryptFailed, KeySliceOutOfRange, EmptyKey}
  {
    match lib.aesDecrypt(XorMask(blob, KeyMask), CoreKey)
    case None => Err(KeyDecryptFailed)
    case Some(plain) =>
      if |plain| < KeyHeader then Err(KeySliceOutOfRange)
      else if |plain| == KeyHeader then Err(EmptyKey)
      else Ok(plain[KeyHeader..])
  }

  /** The metadata document of a non-empty blob: de-obfuscate, drop 22
      bytes, base64-decode, decrypt with the modify key, drop 6 bytes,
      check UTF-8 and parse JSON. */
  function DecodeMetadata(blob: seq<byte>, lib: Library): (r: Result<Json.Value>)
    ensures r.Err? ==> r.error in {MetaHeaderTooShort, MetaBase64Failed, MetaDecryptFailed,
                                   MetaPrefixTooShort, MetaNotUtf8, MetaJsonFailed}
  {
    var plain := XorMask(blob, MetaMask);
    if |plain| < MetaHeader then Err(MetaHeaderTooShort)
    else
      match lib.base64Decode(plain[MetaHeader..])
      case None => Err(MetaBase64Failed)
      case Some(data) =>
        match lib.aesDecrypt(data, ModifyKey)
        case None => Err(MetaDecryptFailed)
        case Some(dedata) =>
          if |dedata| < MetaPrefix then Err(MetaPrefixTooShort)
          else
            match lib.utf8Decode(dedata[MetaPrefix..])
            case None => Err(MetaNotUtf8)
            case Some(text) =>
              match lib.jsonParse(text)
              case None => Err(MetaJsonFailed)
              case Some(info) => Ok(info)
  }

  /** A length-prefixed field: a length word, then that many bytes. */
  function ReadBlob(data: seq<byte>, cur: Cursor): (r: Result<Step<seq<byte>>>)
    requires |cur.word| == 4
    ensures r.Ok? ==> |r.value.next.word| == 4
    ensures r.Err? ==> r.error == Truncated
  {
    var c := ReadWord(data, cur);
    var len := LE32(c.word);
    var blob :- ReadExact(data, c.pos, len);
    Ok(Step(blob, Cursor(c.pos + len, c.word)))
  }

  /** The start of the file: both magic words, the 2-byte skip and the
      key blob. */
  function ReadKeyBlob(data: seq<byte>): (r: Result<Step<seq<byte>>>)
    ensures r.Ok? ==> |r.value.next.word| == 4
  {
    var c1 := ReadWord(data, Cursor(0, [0, 0, 0, 0]));
    if LE32(c1.word) != Magic1 then Err(NotNcm)
    else
      var c2 := ReadWord(data, c1);
      if LE32(c2.word) != Magic2 then Err(NotNcm)
      else ReadBlob(data, Seek(c2, 2))
  }

  /** No metadata for an empty blob (length 0 is not an error), the
      decoded document otherwise. */
  function MetadataOf(blob: seq<byte>, lib: Library): (r: Result<Option<Json.Value>>)
    ensures r == Ok(None) <==> |blob| == 0
    ensures r.Err? ==> DecodeMetadata(blob, lib) == Err(r.error)
    ensures |blob| > 0 ==> (r.Ok? <==> DecodeMetadata(blob, lib).Ok?)
    ensures |blob| > 0 && r.Ok? ==> r.value == Some(DecodeMetadata(blob, lib).value)
  {
    if |blob| == 0 then Ok(None)
    else
      var info :- DecodeMetadata(blob, lib);
      Ok(Some(info))
  }

  /** No cover for an empty image field, the image otherwise. */
  function CoverOf(img: seq<byte>): (r: Option<seq<byte>>)
    ensures r.None? <==> |img| == 0
    ensures r.Some? ==> r.value == img
  {
    if |img| == 0 then None else Some(img)
  }

  /** Everything after the cursor: the encrypted audio payload. */
  function Rest(data: seq<byte>, pos: nat): (r: seq<byte>) {
    if pos < |data| then data[pos..] else []
  }

  /** What a container holds once its sections are read and decoded. */
  datatype Parsed = Parsed(key: seq<byte>, info: Option<Json.Value>, cover: Option<seq<byte>>, audio: seq<byte>)

  /** The whole walk, in the program's order: magic words, key blob, key,
      metadata blob, metadata, 9 skipped bytes, cover, audio. Nothing is
      decrypted before both magic words have been checked. */
  function ParseContainer(data: seq<byte>, lib: Library): (r: Result<Parsed>)
    ensures r.Ok? ==> |r.value.key| > 0
  {
    var keyField :- ReadKeyBlob(data);
    var key :- RecoverKey(keyField.value, lib);
    var metaField :- ReadBlob(data, keyField.next);
    var info :- MetadataOf(metaField.value, lib);
    var coverField :- ReadBlob(data, Seek(metaField.next, 9));
    Ok(Parsed(key, info, CoverOf(coverField.value), Rest(data, coverField.next.pos)))
  }

  /** The first eight bytes spell "CTENFDAM". */
  predicate HasMagic(data: seq<byte>) {
    |data| >= 8 && data[..8] == MagicBytes
  }

  /** A word reads as a given u32 exactly when it holds that u32's bytes. */
  lemma LE32Is(w: seq<byte>, n: nat)
    requires |w| == 4 && n < 0x1_0000_0000
    ensures LE32(w) == n <==> w == U32Bytes(n)
  {
    U32BytesOfLE32(w);
    LE32OfU32Bytes(n);
  }

  /** The first magic check passes exactly on a file starting with "CTEN";
      a shorter file leaves a zero in the word buffer. */
  lemma FirstWordMagic(data: seq<byte>)
    ensures var c1 := ReadWord(data, Cursor(0, [0, 0, 0, 0]));
      LE32(c1.word) == Magic1 <==> |data| >= 4 && data[..4] == MagicBytes[..4]
  {
    var c1 := ReadWord(data, Cursor(0, [0, 0, 0, 0]));
    LE32Is(c1.word, Magic1);
    assert U32Bytes(Magic1) == MagicBytes[..4];
    if |data| < 4 {
      ReadWordBytes(data, Cursor(0, [0, 0, 0, 0]), 3);
      assert c1.word[3] == 0;
    } else {
      assert c1.word == data[..4];
    }
  }

  /** After "CTEN", the second check passes exactly when "FDAM" follows; a
      shorter file leaves the 'N' of "CTEN" at the end of the word buffer. */
  lemma SecondWordMagic(data: seq<byte>)
    requires |data| >= 4 && data[..4] == MagicBytes[..4]
    ensures ReadWord(data, Cursor(0, [0, 0, 0, 0])) == Cursor(4, MagicBytes[..4])
    ensures LE32(ReadWord(data, Cursor(4, MagicBytes[..4])).word) == Magic2
      <==> |data| >= 8 && data[4..8] == MagicBytes[4..]
  {
    var c2 := ReadWord(data, Cursor(4, MagicBytes[..4]));
    LE32Is(c2.word, Magic2);
    assert U32Bytes(Magic2) == MagicBytes[4..];
    if |data| < 8 {
      ReadWordBytes(data, Cursor(4, MagicBytes[..4]), 3);
      assert c2.word[3] == 0x4E;
    } else {
      assert c2.word == data[4..8];
    }
  }

  /** The container is rejected as not an .ncm file exactly when its first
      eight bytes are not "CTENFDAM", whatever the library does: the magic
      check comes before any decryption. */
  lemma MagicChecked(data: seq<byte>, lib: Library)
    ensures ReadKeyBlob(data) == Err(NotNcm) <==> !HasMagic(data)
    ensures ParseContainer(data, lib) == Err(NotNcm) <==> !HasMagic(data)
  {
    FirstWordMagic(data);
    if |data| >= 4 && data[..4] == MagicBytes[..4] {
      SecondWordMagic(data);
      if |data| >= 8 {
        assert data[..8] == data[..4] + data[4..8];
        assert MagicBytes == MagicBytes[..4] + MagicBytes[4..];
      }
    }
  }

  /** Only the decrypted key's bytes from offset 17 on matter: two key
      blobs whose decryptions agree from there give the same key. */
  lemma KeyIgnoresHeader(blob1: seq<byte>, blob2: seq<byte>, lib: Library)
    requires lib.aesDecrypt(XorMask(blob1, KeyMask), CoreKey).Some?
    requires lib.aesDecrypt(XorMask(blob2, KeyMask), CoreKey).Some?
    requires var p1 := lib.aesDecrypt(XorMask(blob1, KeyMask), CoreKey).value;
             var p2 := lib.aesDecrypt(XorMask(blob2, KeyMask), CoreKey).value;
             |p1| >= KeyHeader && |p2| >= KeyHeader && p1[KeyHeader..] == p2[KeyHeader..]
    ensures RecoverKey(blob1, lib) == RecoverKey(blob2, lib)
  {
  }

  /** A key blob is usable exactly when it decrypts to at least 18 bytes;
      the key is then what follows the 17-byte header. */
  lemma RecoverKeyNeeds18Bytes(blob: seq<byte>, lib: Library)
    ensures RecoverKey(blob, lib).Ok? <==>
      (lib.aesDecrypt(XorMask(blob, KeyMask), CoreKey).Some? &&
       |lib.aesDecrypt(XorMask(blob, KeyMask), CoreKey).value| >= KeyHeader + 1)
    ensures RecoverKey(blob, lib).Ok? ==>
      lib.aesDecrypt(XorMask(blob, KeyMask), CoreKey).value
        == lib.aesDecrypt(XorMask(blob, KeyMask), CoreKey).value[..KeyHeader] + RecoverKey(blob, lib).value
  {
  }

  /** Only the de-obfuscated metadata's bytes from offset 22 on matter. */
  lemma MetadataIgnoresHeader(blob1: seq<byte>, blob2: seq<byte>, lib: Library)
    requires |blob1| >= MetaHeader && |blob2| >= MetaHeader
    requires XorMask(blob1, MetaMask)[MetaHeader..] == XorMask(blob2, MetaMask)[MetaHeader..]
    ensures DecodeMetadata(blob1, lib) == DecodeMetadata(blob2, lib)
  {
  }

  /** The metadata once de-obfuscated, base64-decoded and decrypted,
      before its prefix is cut off. */
  function MetaPlaintext(blob: seq<byte>, lib: Library): (r: Option<seq<byte>>)
    requires |blob| >= MetaHeader
  {
    match lib.base64Decode(XorMask(blob, MetaMask)[MetaHeader..])
    case None => None
    case Some(data) => lib.aesDecrypt(data, ModifyKey)
  }

  /** The first six decrypted bytes are skipped unread: metadata whose
      decryptions agree from offset 6 on decode alike. */
  lemma MetadataIgnoresPrefix(blob1: seq<byte>, blob2: seq<byte>, lib: Library)
    requires |blob1| >= MetaHeader && |blob2| >= MetaHeader
    requires MetaPlaintext(blob1, lib).Some? && MetaPlaintext(blob2, lib).Some?
    requires |MetaPlaintext(blob1, lib).value| >= MetaPrefix && |MetaPlaintext(blob2, lib).value| >= MetaPrefix
    requires MetaPlaintext(blob1, lib).value[MetaPrefix..] == MetaPlaintext(blob2, lib).value[MetaPrefix..]
    ensures DecodeMetadata(blob1, lib) == DecodeMetadata(blob2, lib)
  {
  }

  /** Decoding stops at the prefix exactly when the decryption succeeds
      with fewer than six bytes. */
  lemma MetadataNeedsPrefix(blob: seq<byte>, lib: Library)
    ensures DecodeMetadata(blob, lib) == Err(MetaPrefixTooShort) <==>
      && |blob| >= MetaHeader
      && MetaPlaintext(blob, lib).Some?
      && |MetaPlaintext(blob, lib).value| < MetaPrefix
  {
  }

  /** Decoding stops at the header exactly when the blob has fewer than
      22 bytes. */
  lemma MetadataNeedsHeader(blob: seq<byte>, lib: Library)
    ensures DecodeMetadata(blob, lib) == Err(MetaHeaderTooShort) <==> |blob| < MetaHeader
  {
  }

  /** The decoded document: the JSON parse of the UTF-8 text of the
      decryption from offset 6 on, whenever each of those steps succeeds. */
  lemma MetadataDecodes(blob: seq<byte>, lib: Library, v: Json.Value)
    ensures DecodeMetadata(blob, lib) == Ok(v) <==>
      && |blob| >= MetaHeader
      && MetaPlaintext(blob, lib).Some?
      && |MetaPlaintext(blob, lib).value| >= MetaPrefix
      && lib.utf8Decode(MetaPlaintext(blob, lib).value[MetaPrefix..]).Some?
      && lib.jsonParse(lib.utf8Decode(MetaPlaintext(blob, lib).value[MetaPrefix..]).value) == Some(v)
  {
  }

  /** A length-prefixed field fails to read exactly when fewer bytes
      follow its length word than the word declares. */
  lemma ReadBlobFailsIff(data: seq<byte>, cur: Cursor)
    requires |cur.word| == 4
    ensures var c := ReadWord(data, cur);
      ReadBlob(data, cur).Err? <==> LE32(c.word) > 0 && Available(data, c.pos) < LE32(c.word)
  {
  }

  /** The fields of a container, before any decoding, with the bytes the
      program skips. `Encode` lays them out as the file does. */
  datatype Layout = Layout(skip: seq<byte>, keyBlob: seq<byte>, metaBlob: seq<byte>,
                           gap: seq<byte>, cover: seq<byte>, audio: seq<byte>)

  predicate WellSized(l: Layout) {
    && |l.skip| == 2 && |l.gap| == 9
    && |l.keyBlob| < 0x1_0000_0000 && |l.metaBlob| < 0x1_0000_0000 && |l.cover| < 0x1_0000_0000
  }

  function Encode(l: Layout): (r: seq<byte>)
    requires WellSized(l)
  {
    MagicBytes + l.skip + U32Bytes(|l.keyBlob|) + l.keyBlob
      + U32Bytes(|l.metaBlob|) + l.metaBlob
      + l.gap + U32Bytes(|l.cover|) + l.cover
      + l.audio
  }

  /** The decoding of each field on its own: the reference the byte walk
      is checked against. */
  function DecodeLayout(l: Layout, lib: Library): (r: Result<Parsed>) {
    var key :- RecoverKey(l.keyBlob, lib);
    var info :- MetadataOf(l.metaBlob, lib);
    Ok(Parsed(key, info, CoverOf(l.cover), l.audio))
  }

  /** Where each field of an encoded container lies. */
  lemma EncodeSlices(l: Layout)
    requires WellSized(l)
    ensures var data, k, m, c := Encode(l), |l.keyBlob|, |l.metaBlob|, |l.cover|;
      && |data| == 31 + k + m + c + |l.audio|
      && data[..8] == MagicBytes
      && data[10..14] == U32Bytes(k)
      && data[14..14 + k] == l.keyBlob
      && data[14 + k..18 + k] == U32Bytes(m)
      && data[18 + k..18 + k + m] == l.metaBlob
      && data[27 + k + m..31 + k + m] == U32Bytes(c)
      && data[31 + k + m..31 + k + m + c] == l.cover
      && data[31 + k + m + c..] == l.audio
  {
    var k, m, c := |l.keyBlob|, |l.metaBlob|, |l.cover|;
    var p1 := MagicBytes + l.skip;
    var p2 := p1 + U32Bytes(k);
    var p3 := p2 + l.keyBlob;
    var p4 := p3 + U32Bytes(m);
    var p5 := p4 + l.metaBlob;
    var p6 := p5 + l.gap;
    var p7 := p6 + U32Bytes(c);
    var p8 := p7 + l.cover;
    var data := p8 + l.audio;
    assert data[..|p8|] == p8;
    FieldBeforeEnd(p7, l.cover, data);
    FieldBeforeEnd(p6, U32Bytes(c), data);
    FieldBeforeEnd(p5, l.gap, data);
    FieldBeforeEnd(p4, l.metaBlob, data);
    FieldBeforeEnd(p3, U32Bytes(m), data);
    FieldBeforeEnd(p2, l.keyBlob, data);
    FieldBeforeEnd(p1, U32Bytes(k), data);
    FieldBeforeEnd(MagicBytes, l.skip, data);
  }

  /** When data starts with pre + field, the field lies right after pre
      and data starts with pre. */
  lemma FieldBeforeEnd(pre: seq<byte>, field: seq<byte>, data: seq<byte>)
    requires |pre| + |field| <= |data| && data[..|pre| + |field|] == pre + field
    ensures data[|pre|..|pre| + |field|] == field
    ensures data[..|pre|] == pre
  {
    assert data[|pre|..|pre| + |field|] == data[..|pre| + |field|][|pre|..];
    assert data[..|pre|] == data[..|pre| + |field|][..|pre|];
  }

  /** Reading a word where the file holds four bytes gives those bytes. */
  lemma ReadWordAt(data: seq<byte>, cur: Cursor, w: seq<byte>)
    requires |cur.word| == 4 && |w| == 4
    requires cur.pos + 4 <= |data| && data[cur.pos..cur.pos + 4] == w
    ensures ReadWord(data, cur) == Cursor(cur.pos + 4, w)
  {
  }

  /** Reading a length-prefixed field where the file holds one. */
  lemma ReadBlobAt(data: seq<byte>, cur: Cursor, blob: seq<byte>)
    requires |cur.word| == 4 && cur.pos + 4 + |blob| <= |data|
    requires LE32(data[cur.pos..cur.pos + 4]) == |blob|
    requires data[cur.pos + 4..cur.pos + 4 + |blob|] == blob
    ensures ReadBlob(data, cur) == Ok(Step(blob, Cursor(cur.pos + 4 + |blob|, data[cur.pos..cur.pos + 4])))
  {
    ReadWordAt(data, cur, data[cur.pos..cur.pos + 4]);
  }

  /** The start of a file laid out as `Encode` does. */
  lemma ReadKeyBlobAt(data: seq<byte>, keyBlob: seq<byte>)
    requires |data| >= 14 + |keyBlob|
    requires data[..8] == MagicBytes && LE32(data[10..14]) == |keyBlob|
    requires data[14..14 + |keyBlob|] == keyBlob
    ensures ReadKeyBlob(data) == Ok(Step(keyBlob, Cursor(14 + |keyBlob|, data[10..14])))
  {
    assert data[..4] == MagicBytes[..4] && data[4..8] == MagicBytes[4..];
    FirstWordMagic(data);
    SecondWordMagic(data);
    assert ReadWord(data, Cursor(4, MagicBytes[..4])).pos == 8;
    ReadBlobAt(data, Cursor(10, MagicBytes[4..]), keyBlob);
  }

  /** The walk over bytes whose fields read back those of a layout. */
  lemma ParseFields(data: seq<byte>, l: Layout, lib: Library, c1: Cursor, c2: Cursor, c3: Cursor)
    requires |c1.word| == 4 && |c2.word| == 4
    requires ReadKeyBlob(data) == Ok(Step(l.keyBlob, c1))
    requires ReadBlob(data, c1) == Ok(Step(l.metaBlob, c2))
    requires ReadBlob(data, Seek(c2, 9)) == Ok(Step(l.cover, c3))
    requires Rest(data, c3.pos) == l.audio
    ensures ParseContainer(data, lib) == DecodeLayout(l, lib)
  {
  }


  lemma MetaBlobLaidOut(data: seq<byte>, l: Layout)
    requires var k, m := |l.keyBlob|, |l.metaBlob|;
      && |data| >= 18 + k + m
      && LE32(data[14 + k..18 + k]) == m
      && data[18 + k..18 + k + m] == l.metaBlob
    ensures var k, m := |l.keyBlob|, |l.metaBlob|;
      ReadBlob(data, Cursor(14 + k, data[10..14])) == Ok(Step(l.metaBlob, Cursor(18 + k + m, data[14 + k..18 + k])))
  {
    ReadBlobAt(data, Cursor(14 + |l.keyBlob|, data[10..14]), l.metaBlob);
  }

  lemma CoverLaidOut(data: seq<byte>, l: Layout)
    requires var k, m, c := |l.keyBlob|, |l.metaBlob|, |l.cover|;
      && |data| == 31 + k + m + c + |l.audio|
      && LE32(data[27 + k + m..31 + k + m]) == c
      && data[31 + k + m..31 + k + m + c] == l.cover
      && data[31 + k + m + c..] == l.audio
    ensures ReadBlob(data, Seek(Cursor(18 + |l.keyBlob| + |l.metaBlob|, data[14 + |l.keyBlob|..18 + |l.keyBlob|]), 9))
      == Ok(Step(l.cover, Cursor(31 + |l.keyBlob| + |l.metaBlob| + |l.cover|,
                                 data[27 + |l.keyBlob| + |l.metaBlob|..31 + |l.keyBlob| + |l.metaBlob|])))
    ensures Rest(data, 31 + |l.keyBlob| + |l.metaBlob| + |l.cover|) == l.audio
  {
    var k, m := |l.keyBlob|, |l.metaBlob|;
    var cur := Cursor(27 + k + m, data[14 + k..18 + k]);
    assert Seek(Cursor(18 + k + m, data[14 + k..18 + k]), 9) == cur;
    assert cur.pos + 4 == 31 + k + m;
    assert data[cur.pos..cur.pos + 4] == data[27 + k + m..31 + k + m];
    assert data[cur.pos + 4..cur.pos + 4 + |l.cover|] == l.cover;
    ReadBlobAt(data, cur, l.cover);
  }

  /** The key blob of an encoded container reads back. */
  lemma EncodedKeyBlob(l: Layout)
    requires WellSized(l)
    ensures ReadKeyBlob(Encode(l)) == Ok(Step(l.keyBlob, Cursor(14 + |l.keyBlob|, Encode(l)[10..14])))
  {
    EncodeSlices(l);
    LE32OfU32Bytes(|l.keyBlob|);
    ReadKeyBlobAt(Encode(l), l.keyBlob);
  }

  /** The metadata blob of an encoded container reads back. */
  lemma EncodedMetaBlob(l: Layout)
    requires WellSized(l)
    ensures ReadBlob(Encode(l), Cursor(14 + |l.keyBlob|, Encode(l)[10..14]))
      == Ok(Step(l.metaBlob, Cursor(18 + |l.keyBlob| + |l.metaBlob|, Encode(l)[14 + |l.keyBlob|..18 + |l.keyBlob|])))
  {
    EncodeSlices(l);
    LE32OfU32Bytes(|l.metaBlob|);
    MetaBlobLaidOut(Encode(l), l);
  }

  /** The cover and the audio of an encoded container read back. */
  lemma EncodedCover(l: Layout)
    requires WellSized(l)
    ensures ReadBlob(Encode(l), Seek(Cursor(18 + |l.keyBlob| + |l.metaBlob|, Encode(l)[14 + |l.keyBlob|..18 + |l.keyBlob|]), 9))
      == Ok(Step(l.cover, Cursor(31 + |l.keyBlob| + |l.metaBlob| + |l.cover|,
                                 Encode(l)[27 + |l.keyBlob| + |l.metaBlob|..31 + |l.keyBlob| + |l.metaBlob|])))
    ensures Rest(Encode(l), 31 + |l.keyBlob| + |l.metaBlob| + |l.cover|) == l.audio
  {
    var data, k, m := Encode(l), |l.keyBlob|, |l.metaBlob|;
    EncodeSlices(l);
    LE32OfU32Bytes(|l.cover|);
    assert LE32(data[27 + k + m..31 + k + m]) == |l.cover|;
    CoverLaidOut(data, l);
  }

  /** The walk over an encoded container reads back every field: the
      parse of the bytes is the decoding of the fields. */
  lemma ParseEncoded(l: Layout, lib: Library)
    requires WellSized(l)
    ensures ParseContainer(Encode(l), lib) == DecodeLayout(l, lib)
  {
    EncodedKeyBlob(l);
    EncodedMetaBlob(l);
    EncodedCover(l);
    ParseFields(Encode(l), l, lib,
      Cursor(14 + |l.keyBlob|, Encode(l)[10..14]),
      Cursor(18 + |l.keyBlob| + |l.metaBlob|, Encode(l)[14 + |l.keyBlob|..18 + |l.keyBlob|]),
      Cursor(31 + |l.keyBlob| + |l.metaBlob| + |l.cover|, Encode(l)[27 + |l.keyBlob| + |l.metaBlob|..31 + |l.keyBlob| + |l.metaBlob|]));
  }
}
