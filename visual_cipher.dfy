/** The "visual" rendering of a ciphertext: an RGBA buffer as long as the
    plaintext pixels whose bytes are read cyclically from the ciphertext. */
module VisualCipher {
  import opened Pixels

  /** `encryptedArray[i % encryptedArray.length]`. On an empty ciphertext
      the index is NaN, the read gives `undefined`, and the clamped array
      stores 0. Below the ciphertext's length the read does not wrap. */
  function CipherByteAt(encrypted: seq<byte>, i: nat): (b: byte)
    ensures |encrypted| == 0 ==> b == 0
    ensures |encrypted| > 0 ==> b == encrypted[i % |encrypted|]
    ensures i < |encrypted| ==> b == encrypted[i]
  {
    if |encrypted| == 0 then 0
    else if i < |encrypted| then
      ModBelow(i, |encrypted|);
      encrypted[i % |encrypted|]
    else encrypted[i % |encrypted|]
  }

  /** The first `length` bytes the fill loop writes, in order. */
  function Visual(encrypted: seq<byte>, length: nat): (visual: seq<byte>)
    ensures |visual| == length
  {
    if length == 0 then [] else Visual(encrypted, length - 1) + [CipherByteAt(encrypted, length - 1)]
  }

  /** Byte `i` of the visual buffer is ciphertext byte `i` modulo its length. */
  lemma {:induction false} VisualAt(encrypted: seq<byte>, length: nat, i: nat)
    requires i < length
    ensures Visual(encrypted, length)[i] == CipherByteAt(encrypted, i)
  {
    if i < length - 1 {
      VisualAt(encrypted, length - 1, i);
    }
  }

  /** When the ciphertext is at least as long as the buffer the modulo never
      wraps: the buffer is the ciphertext's prefix and the rest of the
      ciphertext is exactly what it leaves out. */
  lemma VisualIsPrefix(encrypted: seq<byte>, length: nat)
    requires length <= |encrypted|
    ensures Visual(encrypted, length) == encrypted[..length]
    ensures encrypted == Visual(encrypted, length) + encrypted[length..]
  {
    forall i | 0 <= i < length
      ensures Visual(encrypted, length)[i] == encrypted[i]
    {
      VisualAt(encrypted, length, i);
    }
  }

  /** An index below the modulus is its own remainder. */
  lemma ModBelow(i: nat, n: nat)
    requires i < n
    ensures i % n == i
  {
  }

  /** The fill loop of `transformImage`: a zeroed buffer of `length` bytes,
      byte `i` set to ciphertext byte `i % |encrypted|`. */
  method VisualFill(encrypted: seq<byte>, length: nat) returns (visual: seq<byte>)
    ensures |visual| == length
    ensures forall i :: 0 <= i < length ==> visual[i] == CipherByteAt(encrypted, i)
    ensures visual == Visual(encrypted, length)
  {
    var visualArray := new byte[length];
    var i := 0;
    while i < length
      invariant 0 <= i <= length
      invariant visualArray[..i] == Visual(encrypted, i)
    {
      visualArray[i] := CipherByteAt(encrypted, i);
      assert visualArray[..i + 1] == visualArray[..i] + [visualArray[i]];
      i := i + 1;
    }
    visual := visualArray[..];
    assert visual == visualArray[..length];
    forall j | 0 <= j < length
      ensures visual[j] == CipherByteAt(encrypted, j)
    {
      VisualAt(encrypted, length, j);
    }
  }
}
