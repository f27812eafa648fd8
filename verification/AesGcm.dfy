/** Bytes, the cryptographic primitives the client gets from its library, and AES-GCM as
    the client uses it: a keystream xor plus a 16-byte tag (NIST SP 800-38D, sections 7.1 and 7.2). */
module AesGcm {
  import opened Wrappers

  type bytes = seq<bv8>

  /** What the model leaves uninterpreted: every proof holds for any such functions.
      Each yields one byte of its output, so that lengths are fixed by the callers. */
  datatype Primitives = Primitives(
    keystream: (bytes, bytes, nat) -> bv8,                 // AES-CTR: key, IV, position
    tagByte: (bytes, bytes, bytes, bytes, nat) -> bv8,     // GHASH: key, IV, AAD, ciphertext, index
    blockDecrypt: (bytes, bytes, nat) -> bv8,              // AES inverse: key, block, index
    blockEncrypt: (bytes, bytes, nat) -> bv8,              // AES forward: key, block, index
    hmac: (bytes, bytes, nat) -> bv8,                      // HKDF extract: salt, key material, index
    expand: (bytes, bytes, nat) -> bv8                     // HKDF expand: PRK, info, index
  )

  /** How decryption of content can fail, by the exception the client raises. */
  datatype Failure =
    | IncompleteGcmData   // fewer bytes than one tag
    | InvalidTag          // tag does not verify
    | CbcFailure          // the single error of every CBC failure
    | IncompleteRead      // fewer bytes consumed than announced

  const TAG_LENGTH: nat := 16

  /** AES-GCM under one key, IV and AAD. */
  datatype Gcm = Gcm(prim: Primitives, key: bytes, iv: bytes, aad: bytes) {

    /** Xor `data` with the keystream from position `offset` on: both directions of CTR mode. */
    function Mask(offset: nat, data: bytes): (r: bytes)
      ensures |r| == |data|
    {
      seq(|data|, i requires 0 <= i < |data| => data[i] ^ prim.keystream(key, iv, offset + i))
    }

    function Tag(ciphertext: bytes): (r: bytes)
      ensures |r| == TAG_LENGTH
    {
      seq(TAG_LENGTH, i requires 0 <= i < TAG_LENGTH => prim.tagByte(key, iv, aad, ciphertext, i))
    }

    /** Authenticated encryption: ciphertext followed by its tag. */
    function Seal(plaintext: bytes): bytes {
      Mask(0, plaintext) + Tag(Mask(0, plaintext))
    }

    /** Authenticated decryption of ciphertext followed by its tag. */
    function Open(sealed: bytes): Result<bytes, Failure> {
      if |sealed| < TAG_LENGTH then
        Err(IncompleteGcmData)
      else
        var n := |sealed| - TAG_LENGTH;
        if sealed[n..] == Tag(sealed[..n]) then Ok(Mask(0, sealed[..n])) else Err(InvalidTag)
    }

    /** Byte by byte: position i of the message meets position i of the keystream, and the tag is
        over all of the ciphertext. */
    lemma SealBytes(plaintext: bytes)
      ensures var sealed, n := Seal(plaintext), |plaintext|;
              && |sealed| == n + 16
              && (forall i :: 0 <= i < n ==> sealed[i] == plaintext[i] ^ prim.keystream(key, iv, i))
              && (forall i :: 0 <= i < 16 ==> sealed[n + i] == prim.tagByte(key, iv, aad, sealed[..n], i))
    {
      assert Seal(plaintext)[..|plaintext|] == Mask(0, plaintext);
    }

    /** Processing a message in two pieces is processing it whole. */
    lemma MaskConcat(offset: nat, a: bytes, b: bytes)
      ensures Mask(offset, a + b) == Mask(offset, a) + Mask(offset + |a|, b)
    {
      var whole, parts := Mask(offset, a + b), Mask(offset, a) + Mask(offset + |a|, b);
      forall i | 0 <= i < |whole|
        ensures whole[i] == parts[i]
      {
        if i >= |a| {
          assert offset + i == (offset + |a|) + (i - |a|);
        }
      }
    }

    lemma MaskInvolution(offset: nat, data: bytes)
      ensures Mask(offset, Mask(offset, data)) == data
    {
      var once := Mask(offset, data);
      forall i | 0 <= i < |data|
        ensures Mask(offset, once)[i] == data[i]
      {
        XorTwice(data[i], prim.keystream(key, iv, offset + i));
      }
    }

    lemma MaskPrefix(data: bytes, n: nat)
      requires n <= |data|
      ensures Mask(0, data[..n]) == Mask(0, data)[..n]
    {
    }

    /** Decryption accepts exactly what encryption produces, and gives back the plaintext. */
    lemma OpenExactlySealed(sealed: bytes, plaintext: bytes)
      ensures Open(sealed) == Ok(plaintext) <==> sealed == Seal(plaintext)
    {
      if sealed == Seal(plaintext) {
        var ciphertext := Mask(0, plaintext);
        assert sealed[..|plaintext|] == ciphertext && sealed[|plaintext|..] == Tag(ciphertext);
        MaskInvolution(0, plaintext);
      }
      if Open(sealed) == Ok(plaintext) {
        var n := |sealed| - TAG_LENGTH;
        MaskInvolution(0, sealed[..n]);
        assert sealed == sealed[..n] + sealed[n..];
      }
    }
  }

  lemma XorTwice(a: bv8, k: bv8)
    ensures a ^ k ^ k == a
  {
  }
}
