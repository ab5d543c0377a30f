/** The stream cipher on the audio payload. The payload is read in chunks
    of 0x8000 bytes into one reused buffer; every byte of the buffer is
    XORed with a keystream byte that depends only on its offset inside the
    buffer, so every chunk sees the same keystream. */
module Stream {
  import opened Common

  /** Size of the reused payload buffer; also the keystream period. */
  const ChunkSize: nat := 0x8000

  /** The keystream byte at in-chunk offset i: with j = (i + 1) & 0xff it is
      kbox[(kbox[j] + kbox[(kbox[j] + j) & 0xff]) & 0xff]. */
  function KeystreamByte(kbox: seq<byte>, i: nat): (r: byte)
    requires |kbox| == 256
  {
    var j := (i + 1) % 256;
    var kj := kbox[j] as int;
    kbox[(kj + kbox[(kj + j) % 256] as int) % 256]
  }

  /** One pass of the XOR loop over a whole buffer. */
  function XorKeystream(buffer: seq<byte>, kbox: seq<byte>): (r: seq<byte>)
    requires |kbox| == 256
  {
    seq(|buffer|, i requires 0 <= i < |buffer| => Xor(buffer[i], KeystreamByte(kbox, i)))
  }

  /** The pass keeps the length and is its own inverse. */
  lemma XorKeystreamInvolution(buffer: seq<byte>, kbox: seq<byte>)
    requires |kbox| == 256
    ensures |XorKeystream(buffer, kbox)| == |buffer|
    ensures XorKeystream(XorKeystream(buffer, kbox), kbox) == buffer
  {
    var once := XorKeystream(buffer, kbox);
    forall i | 0 <= i < |buffer|
      ensures XorKeystream(once, kbox)[i] == buffer[i]
    {
      XorTwice(buffer[i], KeystreamByte(kbox, i));
    }
  }

  /** The pass works byte by byte, so it commutes with taking a prefix. */
  lemma XorKeystreamPrefix(buffer: seq<byte>, n: nat, kbox: seq<byte>)
    requires |kbox| == 256 && n <= |buffer|
    ensures XorKeystream(buffer, kbox)[..n] == XorKeystream(buffer[..n], kbox)
  {
  }

  /** The XOR loop of the source, in place on the buffer: every byte of the
      buffer is XORed, whatever number of bytes the last read returned. */
  method DecryptChunk(buffer: array<byte>, kbox: seq<byte>)
    requires |kbox| == 256
    modifies buffer
    ensures buffer[..] == XorKeystream(old(buffer[..]), kbox)
  {
    for i := 0 to buffer.Length
      invariant forall k :: 0 <= k < i ==> buffer[k] == Xor(old(buffer[k]), KeystreamByte(kbox, k))
      invariant forall k :: i <= k < buffer.Length ==> buffer[k] == old(buffer[k])
    {
      buffer[i] := Xor(buffer[i], KeystreamByte(kbox, i));
    }
  }

  /** Bytes `f.read` returns from the payload at `pos`: as many as fit in the buffer. */
  function ReadCount(payload: seq<byte>, pos: nat): (n: nat)
    requires pos <= |payload|
    ensures n <= ChunkSize && pos + n <= |payload|
    ensures n == 0 <==> pos == |payload|
  {
    Min(ChunkSize, |payload| - pos)
  }

  /** `f.read(&mut buffer)` over the in-memory payload: the first n bytes of
      the buffer are overwritten, the rest keep what they held. */
  method ReadInto(buffer: array<byte>, payload: seq<byte>, pos: nat) returns (n: nat)
    requires buffer.Length == ChunkSize && pos <= |payload|
    modifies buffer
    ensures n == ReadCount(payload, pos)
    ensures buffer[..] == payload[pos..pos + n] + old(buffer[..])[n..]
  {
    n := ReadCount(payload, pos);
    for k := 0 to n
      invariant forall m :: 0 <= m < k ==> buffer[m] == payload[pos + m]
      invariant forall m :: k <= m < ChunkSize ==> buffer[m] == old(buffer[m])
    {
      buffer[k] := payload[pos + k];
    }
  }

  /** The all-zero buffer the source starts with. */
  function Zeros(n: nat): (r: seq<byte>) {
    seq(n, _ => 0)
  }

  /** What the source writes to the scratch file for the rest of the
      payload, given what the reused buffer holds: after each read the
      WHOLE buffer is XORed and written, including the bytes past the read
      count, which are left over from the previous chunk. */
  function WrittenStream(payload: seq<byte>, kbox: seq<byte>, buffer: seq<byte>): (r: seq<byte>)
    requires |kbox| == 256 && |buffer| == ChunkSize
    decreases |payload|
  {
    if |payload| == 0 then []
    else
      var n := Min(ChunkSize, |payload|);
      var out := XorKeystream(payload[..n] + buffer[n..], kbox);
      out + WrittenStream(payload[n..], kbox, out)
  }

  /** The decrypted payload, chunk by chunk, with only the bytes read in
      each chunk emitted. */
  function DecryptStream(payload: seq<byte>, kbox: seq<byte>): (r: seq<byte>)
    requires |kbox| == 256
    ensures |r| == |payload|
    decreases |payload|
  {
    if |payload| == 0 then []
    else
      var n := Min(ChunkSize, |payload|);
      XorKeystream(payload[..n], kbox) + DecryptStream(payload[n..], kbox)
  }

  /** Payload byte k is XORed with the keystream byte of its offset
      inside its chunk. */
  lemma {:induction false} DecryptStreamByte(payload: seq<byte>, kbox: seq<byte>, k: nat)
    requires |kbox| == 256 && k < |payload|
    ensures DecryptStream(payload, kbox)[k] == Xor(payload[k], KeystreamByte(kbox, k % ChunkSize))
    decreases |payload|
  {
    var n := Min(ChunkSize, |payload|);
    var head := XorKeystream(payload[..n], kbox);
    var tail := DecryptStream(payload[n..], kbox);
    assert DecryptStream(payload, kbox) == head + tail;
    if k < n {
      assert k % ChunkSize == k;
      assert head[k] == Xor(payload[k], KeystreamByte(kbox, k));
    } else {
      DecryptStreamByte(payload[n..], kbox, k - n);
      ModShift(k - n);
      assert payload[n..][k - n] == payload[k];
      assert (head + tail)[k] == tail[k - n];
    }
  }

  /** Every payload byte is XORed with the keystream byte of its offset
      inside its chunk: the keystream restarts with every chunk. */
  lemma DecryptStreamAt(payload: seq<byte>, kbox: seq<byte>)
    requires |kbox| == 256
    ensures |DecryptStream(payload, kbox)| == |payload|
    ensures forall k :: 0 <= k < |payload| ==>
      DecryptStream(payload, kbox)[k] == Xor(payload[k], KeystreamByte(kbox, k % ChunkSize))
  {
    forall k | 0 <= k < |payload|
      ensures DecryptStream(payload, kbox)[k] == Xor(payload[k], KeystreamByte(kbox, k % ChunkSize))
    {
      DecryptStreamByte(payload, kbox, k);
    }
  }

  /** Offsets one chunk apart have the same in-chunk offset. */
  lemma ModShift(k: nat)
    ensures (k + ChunkSize) % ChunkSize == k % ChunkSize
  {
  }

  /** Decrypting twice gives back the payload. */
  lemma DecryptStreamInvolution(payload: seq<byte>, kbox: seq<byte>)
    requires |kbox| == 256
    ensures DecryptStream(DecryptStream(payload, kbox), kbox) == payload
  {
    var once := DecryptStream(payload, kbox);
    DecryptStreamAt(payload, kbox);
    DecryptStreamAt(once, kbox);
    forall k | 0 <= k < |payload|
      ensures DecryptStream(once, kbox)[k] == payload[k]
    {
      XorTwice(payload[k], KeystreamByte(kbox, k % ChunkSize));
    }
  }

  /** Two bytes at the same offset of different chunks are XORed with the
      same keystream byte. */
  lemma SameKeystreamEveryChunk(payload: seq<byte>, kbox: seq<byte>, k: nat)
    requires |kbox| == 256 && ChunkSize <= k < |payload|
    ensures Xor(DecryptStream(payload, kbox)[k], payload[k])
         == Xor(DecryptStream(payload, kbox)[k - ChunkSize], payload[k - ChunkSize])
  {
    DecryptStreamByte(payload, kbox, k);
    DecryptStreamByte(payload, kbox, k - ChunkSize);
    ModShift(k - ChunkSize);
    var ks := KeystreamByte(kbox, k % ChunkSize);
    XorTwice(ks, payload[k]);
    XorTwice(ks, payload[k - ChunkSize]);
    XorCommutes(payload[k], ks);
    XorCommutes(payload[k - ChunkSize], ks);
  }

  /** Number of chunks, that is of buffer writes, for a payload. */
  function ChunkCount(len: nat): (r: nat) {
    (len + ChunkSize - 1) / ChunkSize
  }

  /** Each write consumes at most one chunk of the payload. */
  lemma ChunkCountStep(len: nat)
    requires len > 0
    ensures ChunkCount(len) == 1 + ChunkCount(len - Min(ChunkSize, len))
  {
  }

  /** The source's output is a whole number of buffers long, and its first
      |payload| bytes are the decrypted payload. */
  lemma {:induction false} WrittenStreamPrefix(payload: seq<byte>, kbox: seq<byte>, buffer: seq<byte>)
    requires |kbox| == 256 && |buffer| == ChunkSize
    ensures |WrittenStream(payload, kbox, buffer)| >= |payload|
    ensures WrittenStream(payload, kbox, buffer)[..|payload|] == DecryptStream(payload, kbox)
    decreases |payload|
  {
    WrittenStreamLength(payload, kbox, buffer);
    ChunkCountCovers(|payload|);
    if |payload| > 0 {
      var n := Min(ChunkSize, |payload|);
      var filled := payload[..n] + buffer[n..];
      var out := XorKeystream(filled, kbox);
      WrittenStreamPrefix(payload[n..], kbox, out);
      assert filled[..n] == payload[..n];
      XorKeystreamPrefix(filled, n, kbox);
      var rest := WrittenStream(payload[n..], kbox, out);
      assert WrittenStream(payload, kbox, buffer) == out + rest;
      assert DecryptStream(payload, kbox) == out[..n] + DecryptStream(payload[n..], kbox);
      PrefixOfConcat(out, rest, n, |payload|);
    }
  }

  /** The first len bytes of out + rest, when out has at least n <= len bytes
      and rest at least len - n. */
  lemma PrefixOfConcat(out: seq<byte>, rest: seq<byte>, n: nat, len: nat)
    requires n <= |out| && n <= len && len - n <= |rest| && len <= |out| + |rest|
    requires n == |out| || len <= n
    ensures (out + rest)[..len] == if len <= n then out[..len] else out[..n] + rest[..len - n]
  {
  }

  /** The output is one whole buffer per read that returned bytes. */
  lemma {:induction false} WrittenStreamLength(payload: seq<byte>, kbox: seq<byte>, buffer: seq<byte>)
    requires |kbox| == 256 && |buffer| == ChunkSize
    ensures |WrittenStream(payload, kbox, buffer)| == ChunkSize * ChunkCount(|payload|)
    decreases |payload|
  {
    if |payload| > 0 {
      var n := Min(ChunkSize, |payload|);
      var out := XorKeystream(payload[..n] + buffer[n..], kbox);
      WrittenStreamLength(payload[n..], kbox, out);
      ChunkCountStep(|payload|);
      assert WrittenStream(payload, kbox, buffer) == out + WrittenStream(payload[n..], kbox, out);
    }
  }

  /** Whole buffers cover the payload. */
  lemma ChunkCountCovers(len: nat)
    ensures ChunkSize * ChunkCount(len) >= len
  {
  }

  /** The stale bytes. For a payload of one full chunk and a shorter
      second one, the bytes written past the end of the payload are the
      first chunk's ENCRYPTED bytes at the same offsets: the buffer held the
      decrypted first chunk and the XOR undid it. */
  lemma LeftoverIsPreviousCiphertext(payload: seq<byte>, kbox: seq<byte>, buffer: seq<byte>, t: nat)
    requires |kbox| == 256 && |buffer| == ChunkSize
    requires ChunkSize < |payload| < 2 * ChunkSize
    requires |payload| - ChunkSize <= t < ChunkSize
    ensures |WrittenStream(payload, kbox, buffer)| == 2 * ChunkSize
    ensures WrittenStream(payload, kbox, buffer)[ChunkSize + t] == payload[t]
  {
    var first := XorKeystream(payload[..ChunkSize] + buffer[ChunkSize..], kbox);
    var rest := payload[ChunkSize..];
    var m := |rest|;
    var second := XorKeystream(rest[..m] + first[m..], kbox);
    assert WrittenStream(rest, kbox, first) == second + WrittenStream(rest[m..], kbox, second);
    assert rest[m..] == [];
    assert second[t] == Xor(first[t], KeystreamByte(kbox, t));
    assert first[t] == Xor(payload[t], KeystreamByte(kbox, t));
    XorTwice(payload[t], KeystreamByte(kbox, t));
    assert WrittenStream(payload, kbox, buffer) == first + second;
  }

  /** A one-byte payload is written as a whole 0x8000-byte buffer. */
  lemma ShortPayloadWrittenAsFullChunk(b: byte, kbox: seq<byte>)
    requires |kbox| == 256
    ensures |WrittenStream([b], kbox, Zeros(ChunkSize))| == ChunkSize
    ensures |DecryptStream([b], kbox)| == 1
  {
    WrittenStreamLength([b], kbox, Zeros(ChunkSize));
    DecryptStreamAt([b], kbox);
  }

  lemma XorCommutes(a: byte, b: byte)
    ensures Xor(a, b) == Xor(b, a)
  {
    XorBitsCommute(a as nat, b as nat, 8);
  }

  lemma {:induction false} XorBitsCommute(a: nat, b: nat, bits: nat)
    ensures XorBits(a, b, bits) == XorBits(b, a, bits)
  {
    if bits > 0 {
      XorBitsCommute(a / 2, b / 2, bits - 1);
    }
  }

  /** The payload loop as the source runs it: read up to 0x8000 bytes into
      the reused buffer, XOR the whole buffer, write the whole buffer, until
      a read returns nothing. */
  method WritePayload(payload: seq<byte>, kbox: seq<byte>) returns (written: seq<byte>)
    requires |kbox| == 256
    ensures written == WrittenStream(payload, kbox, Zeros(ChunkSize))
  {
    var buffer := new byte[ChunkSize](_ => 0);
    assert buffer[..] == Zeros(ChunkSize);
    ghost var total := WrittenStream(payload, kbox, Zeros(ChunkSize));
    var pos := 0;
    written := [];
    while true
      invariant pos <= |payload| && buffer.Length == ChunkSize
      invariant written + WrittenStream(payload[pos..], kbox, buffer[..]) == total
      decreases |payload| - pos
    {
      ghost var before := buffer[..];
      var n := ReadInto(buffer, payload, pos);
      if n == 0 {
        WrittenStreamDone(payload[pos..], kbox, buffer[..], written, total);
        break;
      }
      ghost var filled := buffer[..];
      DecryptChunk(buffer, kbox);
      WrittenLoopStep(payload, pos, kbox, before, filled, buffer[..], written, total);
      written := written + buffer[..];
      pos := pos + n;
    }
  }

  /** Once the payload is used up, what was written is the whole output. */
  lemma WrittenStreamDone(rest: seq<byte>, kbox: seq<byte>, buffer: seq<byte>, written: seq<byte>, total: seq<byte>)
    requires |kbox| == 256 && |buffer| == ChunkSize && |rest| == 0
    requires written + WrittenStream(rest, kbox, buffer) == total
    ensures written == total
  {
    assert WrittenStream(rest, kbox, buffer) == [];
  }

  /** One read-XOR-write step of the source's loop keeps its invariant. */
  lemma WrittenLoopStep(payload: seq<byte>, pos: nat, kbox: seq<byte>, before: seq<byte>,
                        filled: seq<byte>, out: seq<byte>, written: seq<byte>, total: seq<byte>)
    requires |kbox| == 256 && |before| == ChunkSize && pos < |payload|
    requires filled == payload[pos..pos + ReadCount(payload, pos)] + before[ReadCount(payload, pos)..]
    requires out == XorKeystream(filled, kbox)
    requires written + WrittenStream(payload[pos..], kbox, before) == total
    ensures (written + out) + WrittenStream(payload[pos + ReadCount(payload, pos)..], kbox, out) == total
  {
    var n := ReadCount(payload, pos);
    var p := payload[pos..];
    assert Min(ChunkSize, |p|) == n;
    assert p[..n] == payload[pos..pos + n];
    assert p[n..] == payload[pos + n..];
    assert p[..n] + before[n..] == filled;
    WrittenStreamUnfold(p, kbox, before);
    var rest := WrittenStream(p[n..], kbox, out);
    assert written + (out + rest) == (written + out) + rest;
  }

  /** The first chunk of the output and the rest. */
  lemma WrittenStreamUnfold(payload: seq<byte>, kbox: seq<byte>, buffer: seq<byte>)
    requires |kbox| == 256 && |buffer| == ChunkSize && |payload| > 0
    ensures var n := Min(ChunkSize, |payload|);
      var out := XorKeystream(payload[..n] + buffer[n..], kbox);
      WrittenStream(payload, kbox, buffer) == out + WrittenStream(payload[n..], kbox, out)
  {
  }

  /** The payload loop writing only the bytes each read returned. */
  method DecryptPayload(payload: seq<byte>, kbox: seq<byte>) returns (written: seq<byte>)
    requires |kbox| == 256
    ensures written == DecryptStream(payload, kbox)
  {
    var buffer := new byte[ChunkSize](_ => 0);
    ghost var total := DecryptStream(payload, kbox);
    var pos := 0;
    written := [];
    while true
      invariant pos <= |payload| && buffer.Length == ChunkSize
      invariant written + DecryptStream(payload[pos..], kbox) == total
      decreases |payload| - pos
    {
      ghost var before := buffer[..];
      var n := ReadInto(buffer, payload, pos);
      if n == 0 {
        assert written + DecryptStream(payload[pos..], kbox) == written + [];
        break;
      }
      ghost var filled := buffer[..];
      DecryptChunk(buffer, kbox);
      DecryptLoopStep(payload, pos, kbox, before, filled, buffer[..], written, total);
      written := written + buffer[..n];
      pos := pos + n;
    }
  }

  /** One read-decrypt step of the corrected loop keeps its invariant. */
  lemma DecryptLoopStep(payload: seq<byte>, pos: nat, kbox: seq<byte>, before: seq<byte>,
                        filled: seq<byte>, out: seq<byte>, written: seq<byte>, total: seq<byte>)
    requires |kbox| == 256 && |before| == ChunkSize && pos < |payload|
    requires filled == payload[pos..pos + ReadCount(payload, pos)] + before[ReadCount(payload, pos)..]
    requires out == XorKeystream(filled, kbox)
    requires written + DecryptStream(payload[pos..], kbox) == total
    ensures (written + out[..ReadCount(payload, pos)])
          + DecryptStream(payload[pos + ReadCount(payload, pos)..], kbox) == total
  {
    var n := ReadCount(payload, pos);
    XorKeystreamPrefix(filled, n, kbox);
    assert filled[..n] == payload[pos..pos + n];
    assert payload[pos..][..n] == payload[pos..pos + n];
    assert payload[pos..][n..] == payload[pos + n..];
    assert DecryptStream(payload[pos..], kbox) == out[..n] + DecryptStream(payload[pos + n..], kbox);
  }
}
