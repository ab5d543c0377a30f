/** One run of the converter on one .ncm file: walk the container, build
    the key box, work out the output name, decrypt the audio, choose MP3 or
    FLAC and prepare the tag. The file system, the temporary file and the
    tag writers are not modelled; the file's name, its bytes, the library
    calls and the FLAC detector are parameters. */
module Convert {
  import opened Common
  import Json
  import KeyBox
  import Stream
  import FileName
  import Tags
  import opened Container

  /** What happens to the tag once the audio file has been written: no
      metadata means no tag; otherwise the tag is built, or building it
      stops at a missing field or a cover too short to sniff. */
  datatype TagOutcome = Untagged | Tagged(tag: Tags.OutputTag) | TagFailed(error: Error)

  /** The output file's name, its audio bytes and its tag. */
  datatype Conversion = Conversion(path: string, audio: seq<byte>, tag: TagOutcome)

  function TagOf(info: Option<Json.Value>, cover: Option<seq<byte>>, format: Tags.Format): (r: TagOutcome) {
    match info
    case None => Untagged
    case Some(v) =>
      match Tags.AssembleTag(v, cover, format)
      case Ok(tag) => Tagged(tag)
      case Err(e) => TagFailed(e)
  }

  /** The format chosen from the decrypted audio by the FLAC detector. */
  function FormatOf(audio: seq<byte>, isFlac: seq<byte> -> bool): (r: Tags.Format) {
    if isFlac(audio) then Tags.Flac else Tags.Mp3
  }

  /** The whole conversion, failing where the program stops and in the
      same order: the key section and key, the metadata, the output name,
      the cover; the audio is what the chunk loop writes, whole 0x8000-byte
      buffers including the stale bytes past a short last read. */
  function Convert(fileName: string, data: seq<byte>, lib: Library, isFlac: seq<byte> -> bool): (r: Result<Conversion>)
    ensures r == Err(NotNcm) <==> ReadKeyBlob(data) == Err(NotNcm)
  {
    var keyField :- ReadKeyBlob(data);
    var key :- RecoverKey(keyField.value, lib);
    var metaField :- ReadBlob(data, keyField.next);
    var info :- MetadataOf(metaField.value, lib);
    var stem :- FileName.OutputStem(fileName);
    var coverField :- ReadBlob(data, Seek(metaField.next, 9));
    var audio := Stream.WrittenStream(Rest(data, coverField.next.pos), KeyBox.KeyBoxOf(key), Stream.Zeros(Stream.ChunkSize));
    var format := FormatOf(audio, isFlac);
    Ok(Conversion(stem + "." + format.Extension(), audio, TagOf(info, CoverOf(coverField.value), format)))
  }

  /** With a usable file name, the conversion succeeds exactly when the
      container parses, fails with the parser's error otherwise, and on
      success holds the parsed payload decrypted under the key box of the
      parsed key as the chunk loop writes it, and the tag of the parsed
      metadata and cover. */
  lemma ConvertIsParseThenDecrypt(fileName: string, data: seq<byte>, lib: Library, isFlac: seq<byte> -> bool)
    requires FileName.OutputStem(fileName).Ok?
    ensures Convert(fileName, data, lib, isFlac).Ok? <==> ParseContainer(data, lib).Ok?
    ensures ParseContainer(data, lib).Err? ==>
      Convert(fileName, data, lib, isFlac) == Err(ParseContainer(data, lib).error)
    ensures ParseContainer(data, lib).Ok? ==>
      var p := ParseContainer(data, lib).value;
      var r := Convert(fileName, data, lib, isFlac).value;
      && r.audio == Stream.WrittenStream(p.audio, KeyBox.KeyBoxOf(p.key), Stream.Zeros(Stream.ChunkSize))
      && r.path == FileName.OutputStem(fileName).value + "." + FormatOf(r.audio, isFlac).Extension()
      && r.tag == TagOf(p.info, p.cover, FormatOf(r.audio, isFlac))
  {
    var keyField := ReadKeyBlob(data);
    if keyField.Ok? {
      var key := RecoverKey(keyField.value.value, lib);
      if key.Ok? {
        var metaField := ReadBlob(data, keyField.value.next);
        if metaField.Ok? {
          var info := MetadataOf(metaField.value.value, lib);
          if info.Ok? {
            var coverField := ReadBlob(data, Seek(metaField.value.next, 9));
            if coverField.Ok? {
              var audio := Rest(data, coverField.value.next.pos);
              assert ParseContainer(data, lib) == Ok(Parsed(key.value, info.value, CoverOf(coverField.value.value), audio));
            }
          }
        }
      }
    }
  }

  /** A bad name stops the conversion only once the key and metadata have
      been read and decoded. */
  lemma BadNameAfterMetadata(fileName: string, data: seq<byte>, lib: Library, isFlac: seq<byte> -> bool)
    requires FileName.OutputStem(fileName).Err?
    ensures Convert(fileName, data, lib, isFlac).Err?
    ensures Convert(fileName, data, lib, isFlac).error == BadFileName <==>
      && ReadKeyBlob(data).Ok?
      && RecoverKey(ReadKeyBlob(data).value.value, lib).Ok?
      && ReadBlob(data, ReadKeyBlob(data).value.next).Ok?
      && MetadataOf(ReadBlob(data, ReadKeyBlob(data).value.next).value.value, lib).Ok?
  {
    assert FileName.OutputStem(fileName) == Err(BadFileName);
    var keyField := ReadKeyBlob(data);
    if keyField.Ok? {
      var key := RecoverKey(keyField.value.value, lib);
      if key.Ok? {
        var metaField := ReadBlob(data, keyField.value.next);
        if metaField.Ok? {
          var info := MetadataOf(metaField.value.value, lib);
          if info.Ok? {
            assert Convert(fileName, data, lib, isFlac) == Err(BadFileName);
          }
        }
      }
    }
  }

  /** A file that does not start with "CTENFDAM" is refused as not an
      .ncm file, and no other failure is reported that way. */
  lemma ConvertRejectsWithoutMagic(fileName: string, data: seq<byte>, lib: Library, isFlac: seq<byte> -> bool)
    ensures Convert(fileName, data, lib, isFlac) == Err(NotNcm) <==> !HasMagic(data)
  {
    MagicChecked(data, lib);
  }

  /** Converting a well-formed container: the output is a whole number
      of 0x8000-byte buffers, its first |payload| bytes decrypt back to the
      stored payload, the tag outcome is Untagged exactly when there is no
      metadata, a tag is built exactly when there is metadata and the
      tag's fields are usable, and the tag carries a picture exactly when
      there is a cover. */
  lemma ConvertEncoded(fileName: string, l: Layout, lib: Library, isFlac: seq<byte> -> bool)
    requires WellSized(l)
    requires FileName.OutputStem(fileName).Ok?
    requires RecoverKey(l.keyBlob, lib).Ok? && MetadataOf(l.metaBlob, lib).Ok?
    ensures Convert(fileName, Encode(l), lib, isFlac).Ok?
    ensures var r := Convert(fileName, Encode(l), lib, isFlac).value;
      var kbox := KeyBox.KeyBoxOf(RecoverKey(l.keyBlob, lib).value);
      && |r.audio| == Stream.ChunkSize * Stream.ChunkCount(|l.audio|)
      && |r.audio| >= |l.audio|
      && Stream.DecryptStream(r.audio[..|l.audio|], kbox) == l.audio
      && (r.tag == Untagged <==> |l.metaBlob| == 0)
      && (r.tag.Tagged? <==>
            && |l.metaBlob| > 0
            && Tags.AssembleTag(MetadataOf(l.metaBlob, lib).value.value, CoverOf(l.cover), FormatOf(r.audio, isFlac)).Ok?)
      && (r.tag.Tagged? ==> (r.tag.tag.picture.Some? <==> |l.cover| > 0))
  {
    ParseEncoded(l, lib);
    ConvertIsParseThenDecrypt(fileName, Encode(l), lib, isFlac);
    var key := RecoverKey(l.keyBlob, lib).value;
    var kbox := KeyBox.KeyBoxOf(key);
    KeyBox.KeyBoxIsPermutation(key);
    Stream.WrittenStreamLength(l.audio, kbox, Stream.Zeros(Stream.ChunkSize));
    Stream.WrittenStreamPrefix(l.audio, kbox, Stream.Zeros(Stream.ChunkSize));
    Stream.DecryptStreamInvolution(l.audio, kbox);
    var r := Convert(fileName, Encode(l), lib, isFlac).value;
    if r.tag.Tagged? {
      var info := MetadataOf(l.metaBlob, lib).value;
      Tags.AssembleTagFields(info.value, CoverOf(l.cover), FormatOf(r.audio, isFlac));
    }
  }

  /** The program's steps one after another: the header words read
      through one reused 4-byte buffer, the blobs de-obfuscated in place,
      the key box built in a table and the payload written through a
      chunk buffer. */
  method ProcessFile(fileName: string, data: seq<byte>, lib: Library, isFlac: seq<byte> -> bool)
    returns (r: Result<Conversion>)
    ensures r == Convert(fileName, data, lib, isFlac)
  {
    var buf := new byte[4](_ => 0);
    assert buf[..] == [0, 0, 0, 0];
    var keyField := ReadKeySection(data, buf);
    if keyField.Err? {
      return Err(keyField.error);
    }
    var key := ReadKey(keyField.value.value, lib);
    if key.Err? {
      return Err(key.error);
    }
    var kbox := KeyBox.BuildKeyBox(key.value);
    assert Cursor(keyField.value.next.pos, buf[..]) == keyField.value.next;

    var meta := ReadMetaSection(data, keyField.value.next.pos, buf, lib);
    if meta.Err? {
      return Err(meta.error);
    }
    var info := meta.value.value;
    ghost var metaField := ReadBlob(data, keyField.value.next);
    assert metaField.Ok? && MetadataOf(metaField.value.value, lib) == Ok(info);
    assert meta.value.next == metaField.value.next;
    assert Cursor(meta.value.next.pos + 9, buf[..]) == Seek(metaField.value.next, 9);

    var stem := FileName.OutputStem(fileName);
    if stem.Err? {
      return Err(stem.error);
    }

    var coverField := ReadSection(data, meta.value.next.pos + 9, buf);
    if coverField.Err? {
      return Err(coverField.error);
    }

    var audio := Stream.WritePayload(Rest(data, coverField.value.next.pos), kbox);
    var format := FormatOf(audio, isFlac);
    r := Ok(Conversion(stem.value + "." + format.Extension(), audio, TagOf(info, CoverOf(coverField.value.value), format)));
    ConvertSucceeds(fileName, data, lib, isFlac, keyField.value, key.value,
                    metaField.value, info, stem.value, coverField.value);
  }

  /** The value of a conversion whose every step succeeded. */
  lemma ConvertSucceeds(fileName: string, data: seq<byte>, lib: Library, isFlac: seq<byte> -> bool,
                        keyField: Step<seq<byte>>, key: seq<byte>, metaField: Step<seq<byte>>,
                        info: Option<Json.Value>, stem: string, coverField: Step<seq<byte>>)
    requires ReadKeyBlob(data) == Ok(keyField) && RecoverKey(keyField.value, lib) == Ok(key)
    requires ReadBlob(data, keyField.next) == Ok(metaField) && MetadataOf(metaField.value, lib) == Ok(info)
    requires FileName.OutputStem(fileName) == Ok(stem)
    requires ReadBlob(data, Seek(metaField.next, 9)) == Ok(coverField)
    ensures var audio := Stream.WrittenStream(Rest(data, coverField.next.pos), KeyBox.KeyBoxOf(key), Stream.Zeros(Stream.ChunkSize));
      var format := FormatOf(audio, isFlac);
      Convert(fileName, data, lib, isFlac) == Ok(Conversion(stem + "." + format.Extension(), audio, TagOf(info, CoverOf(coverField.value), format)))
  {
  }

  /** `f.read(&mut buf)` into the reused 4-byte buffer: the bytes read
      overwrite its front in place and the rest keeps what it held. */
  method ReadWordInto(data: seq<byte>, pos: nat, buf: array<byte>) returns (next: nat)
    requires buf.Length == 4
    modifies buf
    ensures Cursor(next, buf[..]) == ReadWord(data, Cursor(pos, old(buf[..])))
  {
    var k := Min(4, Available(data, pos));
    for i := 0 to k
      invariant forall m :: 0 <= m < i ==> buf[m] == data[pos + m]
      invariant forall m :: i <= m < 4 ==> buf[m] == old(buf[m])
    {
      buf[i] := data[pos + i];
    }
    next := pos + k;
    if k > 0 {
      assert buf[..] == data[pos..pos + k] + old(buf[..])[k..];
    } else {
      assert buf[..] == old(buf[..]);
    }
  }

  /** The metadata section: its length word, and for a non-zero length
      the blob read and decoded. */
  method ReadMetaSection(data: seq<byte>, pos: nat, buf: array<byte>, lib: Library)
    returns (r: Result<Step<Option<Json.Value>>>)
    requires buf.Length == 4
    modifies buf
    ensures var cur := Cursor(pos, old(buf[..]));
      && (ReadBlob(data, cur).Err? ==> r == Err(ReadBlob(data, cur).error))
      && (ReadBlob(data, cur).Ok? ==>
        var field := ReadBlob(data, cur).value;
        match MetadataOf(field.value, lib)
        case Ok(info) => r == Ok(Step(info, field.next)) && buf[..] == field.next.word
        case Err(e) => r == Err(e))
  {
    var next := ReadWordInto(data, pos, buf);
    var metaLen := LE32(buf[..]);
    var info: Option<Json.Value> := None;
    if metaLen > 0 {
      var metaRead := ReadExact(data, next, metaLen);
      if metaRead.Err? {
        return Err(metaRead.error);
      }
      var decoded := ReadMetadata(metaRead.value, lib);
      if decoded.Err? {
        return Err(decoded.error);
      }
      info := Some(decoded.value);
    }
    r := Ok(Step(info, Cursor(next + metaLen, buf[..])));
  }

  /** The magic words, the skipped bytes and the key blob, read through
      the fresh zeroed buffer. */
  method ReadKeySection(data: seq<byte>, buf: array<byte>) returns (r: Result<Step<seq<byte>>>)
    requires buf.Length == 4 && buf[..] == [0, 0, 0, 0]
    modifies buf
    ensures r == ReadKeyBlob(data)
    ensures r.Ok? ==> buf[..] == r.value.next.word
  {
    var pos := ReadWordInto(data, 0, buf);
    if LE32(buf[..]) != Magic1 {
      return Err(NotNcm);
    }
    pos := ReadWordInto(data, pos, buf);
    if LE32(buf[..]) != Magic2 {
      return Err(NotNcm);
    }
    r := ReadSection(data, pos + 2, buf);
  }

  /** A length word read into the buffer and then that many bytes. */
  method ReadSection(data: seq<byte>, pos: nat, buf: array<byte>) returns (r: Result<Step<seq<byte>>>)
    requires buf.Length == 4
    modifies buf
    ensures r == ReadBlob(data, Cursor(pos, old(buf[..])))
    ensures r.Ok? ==> buf[..] == r.value.next.word
  {
    var next := ReadWordInto(data, pos, buf);
    var len := LE32(buf[..]);
    var blob := ReadExact(data, next, len);
    if blob.Err? {
      return Err(blob.error);
    }
    r := Ok(Step(blob.value, Cursor(next + len, buf[..])));
  }

  /** The key: the blob de-obfuscated in place, decrypted, and cut after
      its 17-byte header. */
  method ReadKey(blob: seq<byte>, lib: Library) returns (r: Result<seq<byte>>)
    ensures r == RecoverKey(blob, lib)
  {
    var keyData := ToArray(blob);
    Deobfuscate(keyData, KeyMask);
    var deKey := lib.aesDecrypt(keyData[..], CoreKey);
    if deKey.None? {
      return Err(KeyDecryptFailed);
    }
    if |deKey.value| < KeyHeader {
      return Err(KeySliceOutOfRange);
    }
    if |deKey.value| == KeyHeader {
      return Err(EmptyKey);
    }
    r := Ok(deKey.value[KeyHeader..]);
  }

  /** A fresh array holding the bytes of a sequence. */
  method ToArray(s: seq<byte>) returns (a: array<byte>)
    ensures fresh(a) && a[..] == s
  {
    a := new byte[|s|](i requires 0 <= i < |s| => s[i]);
  }

  /** The metadata of a non-empty blob, de-obfuscated in place first. */
  method ReadMetadata(blob: seq<byte>, lib: Library) returns (r: Result<Json.Value>)
    ensures r == DecodeMetadata(blob, lib)
  {
    var modifyData := ToArray(blob);
    Deobfuscate(modifyData, MetaMask);
    if modifyData.Length < MetaHeader {
      return Err(MetaHeaderTooShort);
    }
    var raw := lib.base64Decode(modifyData[MetaHeader..]);
    if raw.None? {
      return Err(MetaBase64Failed);
    }
    var dedata := lib.aesDecrypt(raw.value, ModifyKey);
    if dedata.None? {
      return Err(MetaDecryptFailed);
    }
    if |dedata.value| < MetaPrefix {
      return Err(MetaPrefixTooShort);
    }
    var text := lib.utf8Decode(dedata.value[MetaPrefix..]);
    if text.None? {
      return Err(MetaNotUtf8);
    }
    var parsed := lib.jsonParse(text.value);
    if parsed.None? {
      return Err(MetaJsonFailed);
    }
    return Ok(parsed.value);
  }
}
