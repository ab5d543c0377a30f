/** What the program hands to the tag writers: the cover's MIME type
    sniffed from its first bytes, and the title, album and artists taken
    from the decoded metadata document. */
module Tags {
  import opened Common
  import opened Json

  /** The eight bytes every PNG file starts with. */
  const PngSignature: seq<byte> := [0x89, 0x50, 0x4E, 0x47, 0x0D, 0x0A, 0x1A, 0x0A]

  /** The output container, decided after the payload is decrypted. */
  datatype Format = Mp3 | Flac {
    function Extension(): (r: string) {
      match this
      case Mp3 => "mp3"
      case Flac => "flac"
    }
  }

  /** MIME type of the cover: "" without a cover; otherwise the first eight
      bytes are compared with the PNG signature, and a cover shorter than
      eight bytes makes `img_data[..8]` panic. */
  function CoverMime(cover: Option<seq<byte>>): (r: Result<string>) {
    match cover
    case None => Ok("")
    case Some(img) =>
      if |img| < 8 then Err(CoverTooShort)
      else if img[..8] == PngSignature then Ok("image/png")
      else Ok("image/jpeg")
  }

  /** "image/png" exactly for covers that start with the PNG signature,
      "image/jpeg" exactly for other covers of at least eight bytes. */
  lemma CoverMimeSniff(img: seq<byte>)
    ensures CoverMime(Some(img)) == Ok("image/png") <==> exists rest :: img == PngSignature + rest
    ensures CoverMime(Some(img)) == Ok("image/jpeg") <==> |img| >= 8 && !exists rest :: img == PngSignature + rest
    ensures CoverMime(Some(img)) == Err(CoverTooShort) <==> |img| < 8
  {
    if |img| >= 8 {
      if img[..8] == PngSignature {
        assert img == PngSignature + img[8..];
      } else {
        forall rest
          ensures img == PngSignature + rest ==> img[..8] == PngSignature
        {
          assert (PngSignature + rest)[..8] == PngSignature;
        }
      }
    }
  }

  /** The artist names: the first element of each entry of the `artist`
      array, "" when that element is not a string; no names when `artist`
      is not an array. */
  function Artists(artist: Value): (r: seq<string>)
    ensures |r| == if artist.Array? then |artist.items| else 0
    ensures forall i :: 0 <= i < |r| ==>
      r[i] == if At(artist.items[i], 0).Str? then At(artist.items[i], 0).s else ""
  {
    if artist.Array? then
      seq(|artist.items|, i requires 0 <= i < |artist.items| =>
        match AsStr(At(artist.items[i], 0))
        case Some(name) => name
        case None => "")
    else []
  }

  /** The names come back from an artist list whose entries each start
      with the name, whatever else an entry holds. */
  lemma ArtistsOfEntries(entries: seq<Value>, names: seq<string>)
    requires |entries| == |names|
    requires forall i :: 0 <= i < |entries| ==>
      entries[i].Array? && |entries[i].items| > 0 && entries[i].items[0] == Str(names[i])
    ensures Artists(Array(entries)) == names
  {
  }

  /** `join`: the names with `sep` between consecutive ones. */
  function Join(names: seq<string>, sep: char): (r: string) {
    if |names| == 0 then ""
    else if |names| == 1 then names[0]
    else names[0] + [sep] + Join(names[1..], sep)
  }

  /** Cutting a string at every `sep`; the inverse of `Join` on names that
      do not contain `sep`. */
  function Split(s: string, sep: char): (parts: seq<string>)
    ensures |parts| >= 1
  {
    if |s| == 0 then [""]
    else
      var rest := Split(s[1..], sep);
      if s[0] == sep then [""] + rest else [[s[0]] + rest[0]] + rest[1..]
  }

  lemma {:induction false} SplitPlain(a: string, sep: char)
    requires sep !in a
    ensures Split(a, sep) == [a]
  {
    if |a| > 0 {
      SplitPlain(a[1..], sep);
      assert [a[0]] + a[1..] == a;
    }
  }

  lemma {:induction false} SplitAfterPlain(a: string, sep: char, b: string)
    requires sep !in a
    ensures Split(a + [sep] + b, sep) == [a] + Split(b, sep)
  {
    if |a| == 0 {
      assert a + [sep] + b == [sep] + b;
      assert ([sep] + b)[1..] == b;
    } else {
      SplitAfterPlain(a[1..], sep, b);
      assert (a + [sep] + b)[1..] == a[1..] + [sep] + b;
      assert [a[0]] + a[1..] == a;
    }
  }

  /** The MP3 artist field still holds every artist separately: splitting
      it at the separator gives the names back, when there is at least one
      name and none contains the separator. */
  lemma {:induction false} SplitJoin(names: seq<string>, sep: char)
    requires |names| >= 1
    requires forall i :: 0 <= i < |names| ==> sep !in names[i]
    ensures Split(Join(names, sep), sep) == names
  {
    if |names| == 1 {
      SplitPlain(names[0], sep);
    } else {
      SplitJoin(names[1..], sep);
      SplitAfterPlain(names[0], sep, Join(names[1..], sep));
    }
  }

  /** An embedded front-cover picture. */
  datatype Picture = Picture(mime: string, data: seq<byte>)

  /** The tag handed to the writer: ID3v2.3 for MP3 with one artist string,
      Vorbis comments for FLAC with one value per artist. */
  datatype OutputTag =
    | Id3Tag(title: string, album: string, artist: string, picture: Option<Picture>)
    | VorbisTag(titles: seq<string>, albums: seq<string>, artists: seq<string>, picture: Option<Picture>)

  /** `music_info[field].as_str().unwrap()`. */
  function StringField(info: Value, field: string): (r: Result<string>) {
    match AsStr(Get(info, field))
    case Some(s) => Ok(s)
    case None => Err(FieldNotString(field))
  }

  /** `music_info[field].as_i64().unwrap()`. */
  function IntegerField(info: Value, field: string): (r: Result<int>) {
    match AsI64(Get(info, field))
    case Some(n) => Ok(n)
    case None => Err(FieldNotInteger(field))
  }

  /** The tag built from the metadata document and the cover, checking in
      the order the program does: the cover's MIME type, then musicName,
      album, bitrate and duration. */
  function AssembleTag(info: Value, cover: Option<seq<byte>>, format: Format): (r: Result<OutputTag>) {
    var mime :- CoverMime(cover);
    var title :- StringField(info, "musicName");
    var album :- StringField(info, "album");
    var _ :- IntegerField(info, "bitrate");
    var _ :- IntegerField(info, "duration");
    var artists := Artists(Get(info, "artist"));
    var picture := match cover
      case None => None
      case Some(img) => Some(Picture(mime, img));
    match format
    case Mp3 => Ok(Id3Tag(title, album, Join(artists, '/'), picture))
    case Flac => Ok(VorbisTag([title], [album], artists, picture))
  }

  /** A built tag carries the document's title and album, one artist name
      per `artist` entry (joined with '/' for MP3), and the cover unchanged
      with its sniffed MIME type. */
  lemma AssembleTagFields(info: Value, cover: Option<seq<byte>>, format: Format)
    requires AssembleTag(info, cover, format).Ok?
    ensures var tag := AssembleTag(info, cover, format).value;
      && Get(info, "musicName") == Str(if tag.Id3Tag? then tag.title else tag.titles[0])
      && Get(info, "album") == Str(if tag.Id3Tag? then tag.album else tag.albums[0])
      && AsI64(Get(info, "bitrate")).Some? && AsI64(Get(info, "duration")).Some?
      && tag.Id3Tag? == (format == Mp3)
      && (tag.Id3Tag? ==> tag.artist == Join(Artists(Get(info, "artist")), '/'))
      && (tag.VorbisTag? ==> |tag.titles| == 1 && |tag.albums| == 1 && tag.artists == Artists(Get(info, "artist")))
      && (tag.picture.Some? <==> cover.Some?)
      && (cover.Some? ==> tag.picture.value == Picture(CoverMime(cover).value, cover.value))
  {
  }

  /** The metadata decides whether a tag is built, whatever the format:
      a field of the wrong type, or a cover too short to sniff, stops it. */
  lemma AssembleTagFailures(info: Value, cover: Option<seq<byte>>, format: Format)
    ensures AssembleTag(info, cover, format).Err? <==>
      || (cover.Some? && |cover.value| < 8)
      || AsStr(Get(info, "musicName")).None?
      || AsStr(Get(info, "album")).None?
      || AsI64(Get(info, "bitrate")).None?
      || AsI64(Get(info, "duration")).None?
  {
  }
}
