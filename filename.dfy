/** The output file name: the input file name without its last four
    bytes (the ".ncm" extension), with each of the eight characters that
    file systems refuse replaced by its fullwidth look-alike. */
module FileName {
  import opened Common

  /** Number of bytes of a character in UTF-8, the encoding of Rust's `str`. */
  function Utf8Width(c: char): (r: nat) {
    if c as int < 0x80 then 1
    else if c as int < 0x800 then 2
    else if c as int < 0x10000 then 3
    else 4
  }

  /** `str::len`: the UTF-8 byte length of a string. */
  function Utf8Length(s: string): (r: nat) {
    if |s| == 0 then 0 else Utf8Length(s[..|s| - 1]) + Utf8Width(s[|s| - 1])
  }

  /** `s.get(0..s.len() - k)`: the prefix that leaves exactly k bytes out,
      or nothing when s has fewer than k bytes or when byte len-k falls
      inside a character. */
  function DropLastBytes(s: string, k: nat): (r: Option<string>)
    decreases |s|
  {
    if k == 0 then Some(s)
    else if |s| == 0 then None
    else
      var w := Utf8Width(s[|s| - 1]);
      if w <= k then DropLastBytes(s[..|s| - 1], k - w) else None
  }

  lemma Utf8LengthAppend(s: string, c: char)
    ensures Utf8Length(s + [c]) == Utf8Length(s) + Utf8Width(c)
  {
    assert (s + [c])[..|s|] == s;
  }

  /** Byte length of a suffix, peeling its last character. */
  lemma SuffixLength(s: string, m: nat)
    requires m < |s|
    ensures Utf8Length(s[m..]) == Utf8Length(s[m..|s| - 1]) + Utf8Width(s[|s| - 1])
  {
    assert s[m..] == s[m..|s| - 1] + [s[|s| - 1]];
    Utf8LengthAppend(s[m..|s| - 1], s[|s| - 1]);
  }

  /** The stem is the prefix s[..m] exactly when the suffix s[m..] is k
      bytes long; no such prefix means no stem. */
  lemma {:induction false} DropLastBytesSpec(s: string, k: nat, m: nat)
    requires m <= |s|
    ensures DropLastBytes(s, k) == Some(s[..m]) <==> Utf8Length(s[m..]) == k
    decreases |s|
  {
    if m == |s| {
      assert s[m..] == [] && s[..m] == s;
      if k > 0 {
        DropLastBytesShorter(s, k);
      }
    } else {
      var init := s[..|s| - 1];
      var w := Utf8Width(s[|s| - 1]);
      SuffixLength(s, m);
      assert init[m..] == s[m..|s| - 1];
      assert init[..m] == s[..m];
      if w <= k {
        DropLastBytesSpec(init, k - w, m);
      } else {
        assert Utf8Length(s[m..]) >= w;
      }
    }
  }

  /** A stem found by dropping at least one byte is strictly shorter. */
  lemma {:induction false} DropLastBytesShorter(s: string, k: nat)
    requires k > 0
    ensures DropLastBytes(s, k).Some? ==> |DropLastBytes(s, k).value| < |s|
    decreases |s|
  {
    if |s| > 0 {
      var w := Utf8Width(s[|s| - 1]);
      if w < k {
        DropLastBytesShorter(s[..|s| - 1], k - w);
      }
    }
  }

  /** The substitution table, applied in this order. */
  const Filter: seq<(char, char)> := [
    ('\\', '\U{FF3C}'),
    ('/', '\U{FF0F}'),
    (':', '\U{FF1A}'),
    ('*', '\U{FF0A}'),
    ('"', '\U{FF02}'),
    ('<', '\U{FF1C}'),
    ('>', '\U{FF1E}'),
    ('|', '\U{FF5C}')
  ]

  /** The characters the table removes. */
  predicate Forbidden(c: char) {
    c in {'\\', '/', ':', '*', '"', '<', '>', '|'}
  }

  /** `str::replace` of a one-character pattern by a one-character string. */
  function ReplaceAll(s: string, from: char, to: char): (r: string) {
    if |s| == 0 then []
    else [if s[0] == from then to else s[0]] + ReplaceAll(s[1..], from, to)
  }

  /** `FILTER.iter().fold(stem, |acc, (fr, to)| acc.replace(fr, to))`. */
  function FoldFilter(s: string, table: seq<(char, char)>): (r: string)
    decreases |table|
  {
    if |table| == 0 then s
    else FoldFilter(ReplaceAll(s, table[0].0, table[0].1), table[1..])
  }

  /** What the fold does to a single character. */
  function FoldChar(c: char, table: seq<(char, char)>): (r: char)
    decreases |table|
  {
    if |table| == 0 then c
    else FoldChar(if c == table[0].0 then table[0].1 else c, table[1..])
  }

  lemma {:induction false} ReplaceAllAt(s: string, from: char, to: char)
    ensures |ReplaceAll(s, from, to)| == |s|
    ensures forall i :: 0 <= i < |s| ==>
      ReplaceAll(s, from, to)[i] == if s[i] == from then to else s[i]
  {
    if |s| > 0 {
      ReplaceAllAt(s[1..], from, to);
    }
  }

  /** The fold of one-character replacements acts on each character alone. */
  lemma {:induction false} FoldFilterAt(s: string, table: seq<(char, char)>)
    ensures |FoldFilter(s, table)| == |s|
    ensures forall i :: 0 <= i < |s| ==> FoldFilter(s, table)[i] == FoldChar(s[i], table)
    decreases |table|
  {
    if |table| > 0 {
      var r := ReplaceAll(s, table[0].0, table[0].1);
      ReplaceAllAt(s, table[0].0, table[0].1);
      FoldFilterAt(r, table[1..]);
    }
  }

  /** The replacement for a single character: the fullwidth form of a
      forbidden one, the character itself otherwise. */
  function Fullwidth(c: char): (r: char) {
    match c
    case '\\' => '\U{FF3C}'
    case '/' => '\U{FF0F}'
    case ':' => '\U{FF1A}'
    case '*' => '\U{FF0A}'
    case '"' => '\U{FF02}'
    case '<' => '\U{FF1C}'
    case '>' => '\U{FF1E}'
    case '|' => '\U{FF5C}'
    case _ => c
  }

  lemma FoldCharIsFullwidth(c: char)
    ensures FoldChar(c, Filter) == Fullwidth(c)
    ensures !Forbidden(FoldChar(c, Filter))
  {
  }

  /** The sanitised stem: same number of characters, each forbidden one
      replaced by its fullwidth form, every other one kept, and no
      forbidden character left. */
  lemma Sanitised(s: string)
    ensures |FoldFilter(s, Filter)| == |s|
    ensures forall i :: 0 <= i < |s| ==> FoldFilter(s, Filter)[i] == Fullwidth(s[i])
    ensures forall i :: 0 <= i < |s| ==> !Forbidden(FoldFilter(s, Filter)[i])
  {
    FoldFilterAt(s, Filter);
    forall i | 0 <= i < |s|
      ensures FoldFilter(s, Filter)[i] == Fullwidth(s[i]) && !Forbidden(FoldFilter(s, Filter)[i])
    {
      FoldCharIsFullwidth(s[i]);
    }
  }

  /** The stem of the output name, from the input file's name. */
  function OutputStem(name: string): (r: Result<string>) {
    match DropLastBytes(name, 4)
    case None => Err(BadFileName)
    case Some(stem) => Ok(FoldFilter(stem, Filter))
  }

  /** A name ending in four ASCII characters, such as "song.ncm", gives the
      sanitised name without those four characters. */
  lemma OutputStemOfAsciiExtension(base: string, ext: string)
    requires |ext| == 4 && forall i :: 0 <= i < 4 ==> ext[i] as int < 0x80
    ensures OutputStem(base + ext) == Ok(FoldFilter(base, Filter))
    ensures |FoldFilter(base, Filter)| == |base|
  {
    var s := base + ext;
    assert s[|base|..] == ext;
    AsciiLength(ext);
    DropLastBytesSpec(s, 4, |base|);
    assert s[..|base|] == base;
    FoldFilterAt(base, Filter);
  }

  /** An ASCII string has one byte per character. */
  lemma {:induction false} AsciiLength(s: string)
    requires forall i :: 0 <= i < |s| ==> s[i] as int < 0x80
    ensures Utf8Length(s) == |s|
  {
    if |s| > 0 {
      AsciiLength(s[..|s| - 1]);
    }
  }

  /** Fewer than four bytes give no stem. */
  lemma OutputStemOfShortName(name: string)
    requires Utf8Length(name) < 4
    ensures OutputStem(name) == Err(BadFileName)
  {
    if DropLastBytes(name, 4).Some? {
      DropLastBytesShorter(name, 4);
      var m := |DropLastBytes(name, 4).value|;
      DropLastBytesPrefix(name, 4);
      DropLastBytesSpec(name, 4, m);
      SuffixAtMostWhole(name, m);
    }
  }

  /** A stem is always a prefix of the name. */
  lemma {:induction false} DropLastBytesPrefix(s: string, k: nat)
    ensures DropLastBytes(s, k).Some? ==>
      |DropLastBytes(s, k).value| <= |s| && DropLastBytes(s, k).value == s[..|DropLastBytes(s, k).value|]
    decreases |s|
  {
    if k > 0 && |s| > 0 {
      var w := Utf8Width(s[|s| - 1]);
      if w <= k {
        DropLastBytesPrefix(s[..|s| - 1], k - w);
      }
    }
  }

  /** A suffix has no more bytes than the whole string. */
  lemma {:induction false} SuffixAtMostWhole(s: string, m: nat)
    requires m <= |s|
    ensures Utf8Length(s[m..]) <= Utf8Length(s)
    decreases |s|
  {
    if m < |s| {
      SuffixLength(s, m);
      SuffixAtMostWhole(s[..|s| - 1], m);
      assert s[..|s| - 1][m..] == s[m..|s| - 1];
    }
  }
}
