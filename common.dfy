/** Types shared by every stage of the .ncm conversion: bytes, optional
    values, and the ways a conversion can fail. Each panic, `expect` or
    propagated I/O error of the program becomes one `Error` value. */
module Common {

  /** An octet, `u8`. */
  newtype byte = x: int | 0 <= x < 256

  /** 2 to the power n. */
  function Pow2(n: nat): (p: nat) {
    if n == 0 then 1 else 2 * Pow2(n - 1)
  }

  /** Bitwise exclusive or of the low `bits` bits of a and b, least
      significant bit first. */
  function XorBits(a: nat, b: nat, bits: nat): (r: nat)
    ensures r < Pow2(bits)
  {
    if bits == 0 then 0
    else (a % 2 + b % 2) % 2 + 2 * XorBits(a / 2, b / 2, bits - 1)
  }

  /** `x ^ k` on `u8`. */
  function Xor(x: byte, k: byte): (r: byte) {
    XorBits(x as nat, k as nat, 8) as byte
  }

  /** XOR with the same bits twice gives back the low bits of the operand. */
  lemma {:induction false} XorBitsTwice(a: nat, k: nat, bits: nat)
    requires a < Pow2(bits)
    ensures XorBits(XorBits(a, k, bits), k, bits) == a
  {
    if bits > 0 {
      var low := (a % 2 + k % 2) % 2;
      var rest := XorBits(a / 2, k / 2, bits - 1);
      var r := low + 2 * rest;
      assert XorBits(a, k, bits) == r;
      assert r % 2 == low && r / 2 == rest;
      assert (low + k % 2) % 2 == a % 2;
      assert a / 2 < Pow2(bits - 1);
      XorBitsTwice(a / 2, k / 2, bits - 1);
      assert XorBits(r, k, bits) == a % 2 + 2 * (a / 2);
    }
  }

  datatype Option<+T> = None | Some(value: T)

  /** Why a conversion stops. */
  datatype Error =
    | NotNcm               // one of the two magic words is wrong
    | Truncated            // `read_exact` hit the end of the file
    | KeyDecryptFailed     // AES on the key blob failed
    | KeySliceOutOfRange   // decrypted key shorter than 17 bytes: `[17..]` panics
    | EmptyKey             // decrypted key exactly 17 bytes: `i % 0` in the key schedule
    | MetaHeaderTooShort   // metadata blob shorter than 22 bytes: `[22..]` panics
    | MetaBase64Failed
    | MetaDecryptFailed
    | MetaPrefixTooShort   // decrypted metadata shorter than 6 bytes: `[6..]` panics
    | MetaNotUtf8
    | MetaJsonFailed
    | BadFileName          // fewer than 4 bytes, or byte len-4 is not a character boundary
    | CoverTooShort        // cover image shorter than 8 bytes: `[..8]` panics
    | FieldNotString(field: string)
    | FieldNotInteger(field: string)

  datatype Result<+T> = Ok(value: T) | Err(error: Error) {
    predicate IsFailure() {
      Err?
    }

    function PropagateFailure<U>(): Result<U>
      requires Err?
    {
      Err(error)
    }

    function Extract(): T
      requires Ok?
    {
      value
    }
  }

  function Min(a: int, b: int): (r: int) {
    if a < b then a else b
  }

  /** The byte-wise XOR of a blob with one constant, as done in place by
      `iter_mut().for_each(|x| *x ^= mask)`. */
  function XorMask(s: seq<byte>, mask: byte): (r: seq<byte>) {
    seq(|s|, i requires 0 <= i < |s| => Xor(s[i], mask))
  }

  /** De-obfuscation keeps the length, and applying it twice restores the blob. */
  lemma XorMaskInvolution(s: seq<byte>, mask: byte)
    ensures |XorMask(s, mask)| == |s|
    ensures XorMask(XorMask(s, mask), mask) == s
  {
    var t := XorMask(XorMask(s, mask), mask);
    forall i | 0 <= i < |s|
      ensures t[i] == s[i]
    {
      XorTwice(s[i], mask);
    }
  }

  /** `(x ^ k) ^ k == x` on bytes. */
  lemma XorTwice(x: byte, k: byte)
    ensures Xor(Xor(x, k), k) == x
  {
    assert Pow2(8) == 256;
    XorBitsTwice(x as nat, k as nat, 8);
  }

  /** The in-place loop of the source: every byte of the blob is XORed with
      `mask` and nothing else changes. */
  method Deobfuscate(blob: array<byte>, mask: byte)
    modifies blob
    ensures blob[..] == XorMask(old(blob[..]), mask)
  {
    for i := 0 to blob.Length
      invariant forall k :: 0 <= k < i ==> blob[k] == Xor(old(blob[k]), mask)
      invariant forall k :: i <= k < blob.Length ==> blob[k] == old(blob[k])
    {
      blob[i] := Xor(blob[i], mask);
    }
  }
}
