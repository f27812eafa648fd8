/** AES-CBC decryption (NIST SP 800-38A, section 6.2) with PKCS7 padding
    (RFC 5652, section 6.3): the form used to read legacy objects. */
module AesCbc {
  import opened Wrappers
  import opened AesGcm

  const BLOCK: nat := 16

  type Block = b: bytes | |b| == BLOCK witness seq(BLOCK, _ => 0)

  /** The largest multiple of the block size that does not exceed `n`. */
  function WholeBlocks(n: nat): (r: nat)
    ensures r <= n < r + BLOCK && r % BLOCK == 0
  {
    n - n % BLOCK
  }

  lemma WholeBlocksAdd(n: nat, k: nat)
    requires n % BLOCK == 0
    ensures WholeBlocks(n + k) == n + WholeBlocks(k)
  {
  }

  datatype Cbc = Cbc(prim: Primitives, key: bytes, iv: Block) {

    function InverseCipher(block: Block): Block {
      seq(BLOCK, i requires 0 <= i < BLOCK => prim.blockDecrypt(key, block, i))
    }

    /** Decrypt whole blocks, chaining from `previous`. */
    function Decrypt(previous: Block, ciphertext: bytes): (r: bytes)
      requires |ciphertext| % BLOCK == 0
      ensures |r| == |ciphertext|
      decreases |ciphertext|
    {
      if ciphertext == [] then
        []
      else
        XorBlock(InverseCipher(ciphertext[..BLOCK]), previous) + Decrypt(ciphertext[..BLOCK], ciphertext[BLOCK..])
    }

    /** The whole-message reference: decrypt everything, then remove the padding. */
    function Open(ciphertext: bytes): Result<bytes, Failure> {
      if |ciphertext| % BLOCK != 0 then
        Err(CbcFailure)
      else
        match Unpad(Decrypt(iv, ciphertext))
        case Some(plaintext) => Ok(plaintext)
        case None => Err(CbcFailure)
    }

    function Cipher(block: Block): Block {
      seq(BLOCK, i requires 0 <= i < BLOCK => prim.blockEncrypt(key, block, i))
    }

    function Encrypt(previous: Block, plaintext: bytes): (r: bytes)
      requires |plaintext| % BLOCK == 0
      ensures |r| == |plaintext|
      decreases |plaintext|
    {
      if plaintext == [] then
        []
      else
        var block := Cipher(XorBlock(plaintext[..BLOCK], previous));
        block + Encrypt(block, plaintext[BLOCK..])
    }

    /** The block functions are each other's inverse, as AES promises. */
    ghost predicate BlockInverse() {
      forall b: Block :: InverseCipher(Cipher(b)) == b
    }

    lemma {:induction false} DecryptConcat(previous: Block, a: bytes, b: bytes)
      requires |a| % BLOCK == 0 && |b| % BLOCK == 0
      ensures Decrypt(previous, a + b) == Decrypt(previous, a) + Decrypt(LastBlock(previous, a), b)
      decreases |a|
    {
      if a == [] {
        assert a + b == b;
      } else {
        assert (a + b)[..BLOCK] == a[..BLOCK];
        assert (a + b)[BLOCK..] == a[BLOCK..] + b;
        DecryptConcat(a[..BLOCK], a[BLOCK..], b);
      }
    }

    /** Byte by byte: each block goes through the inverse cipher and meets the block before it, the
        first one the IV. */
    lemma {:induction false} DecryptBytes(previous: Block, ciphertext: bytes, k: nat)
      requires |ciphertext| % BLOCK == 0 && k < |ciphertext|
      ensures var start := k - k % 16;
              && start + 16 <= |ciphertext|
              && Decrypt(previous, ciphertext)[k] == prim.blockDecrypt(key, ciphertext[start..start + 16], k % 16)
                                                     ^ (if k < 16 then previous[k] else ciphertext[k - 16])
      decreases |ciphertext|
    {
      if k >= BLOCK {
        var rest := ciphertext[BLOCK..];
        DecryptBytes(ciphertext[..BLOCK], rest, k - BLOCK);
        var start := (k - BLOCK) - (k - BLOCK) % 16;
        assert rest[start..start + 16] == ciphertext[start + 16..start + 32];
      }
    }

    /** A body opens to a plaintext exactly when it deciphers to that plaintext, padded. */
    lemma OpenExactly(ciphertext: bytes, plaintext: bytes)
      ensures Open(ciphertext) == Ok(plaintext) <==>
              |ciphertext| % BLOCK == 0 && Decrypt(iv, ciphertext) == Pad(plaintext)
    {
      if |ciphertext| % BLOCK == 0 {
        UnpadExactly(Decrypt(iv, ciphertext), plaintext);
      }
    }

    lemma DecryptPrefix(ciphertext: bytes, n: nat)
      requires |ciphertext| % BLOCK == 0 && n % BLOCK == 0 && n <= |ciphertext|
      ensures Decrypt(iv, ciphertext[..n]) == Decrypt(iv, ciphertext)[..n]
    {
      var a, b := ciphertext[..n], ciphertext[n..];
      assert |b| % BLOCK == 0;
      assert ciphertext == a + b;
      DecryptConcat(iv, a, b);
    }

    lemma {:induction false} DecryptEncrypt(previous: Block, plaintext: bytes)
      requires BlockInverse() && |plaintext| % BLOCK == 0
      ensures Decrypt(previous, Encrypt(previous, plaintext)) == plaintext
      decreases |plaintext|
    {
      if plaintext != [] {
        var p := plaintext[..BLOCK];
        var block: bytes := Cipher(XorBlock(p, previous));
        var rest: bytes := Encrypt(block, plaintext[BLOCK..]);
        assert (block + rest)[..BLOCK] == block && (block + rest)[BLOCK..] == rest;
        XorBlockTwice(p, previous);
        DecryptEncrypt(block, plaintext[BLOCK..]);
      }
    }

    /** The reference reads back every object written with PKCS7 padding and CBC. */
    lemma OpenEncrypted(plaintext: bytes)
      requires BlockInverse()
      ensures Open(Encrypt(iv, Pad(plaintext))) == Ok(plaintext)
    {
      DecryptEncrypt(iv, Pad(plaintext));
      UnpadPad(plaintext);
    }
  }

  function XorBlock(a: Block, b: Block): Block {
    seq(BLOCK, i requires 0 <= i < BLOCK => a[i] ^ b[i])
  }

  lemma XorBlockTwice(a: Block, b: Block)
    ensures XorBlock(XorBlock(a, b), b) == a
  {
    forall i | 0 <= i < BLOCK
      ensures XorBlock(XorBlock(a, b), b)[i] == a[i]
    {
      XorTwice(a[i], b[i]);
    }
  }

  /** The block the next one chains from after `blocks`. */
  function LastBlock(previous: Block, blocks: bytes): Block
    requires |blocks| % BLOCK == 0
  {
    if blocks == [] then previous else blocks[|blocks| - BLOCK..]
  }

  /** The padding length a final block claims, when its padding is well formed. */
  function PadLength(last: Block): Option<nat> {
    var n := last[BLOCK - 1] as nat;
    if 1 <= n <= BLOCK && forall i :: BLOCK - n <= i < BLOCK ==> last[i] == last[BLOCK - 1] then Some(n) else None
  }

  function Unpad(padded: bytes): Option<bytes> {
    if padded == [] || |padded| % BLOCK != 0 then
      None
    else
      match PadLength(padded[|padded| - BLOCK..])
      case Some(n) => Some(padded[..|padded| - n])
      case None => None
  }

  /** n bytes, each n. */
  function Padding(n: nat): (r: bytes)
    requires 1 <= n <= BLOCK
    ensures |r| == n
  {
    var byte := n as bv8;
    seq(n, _ => byte)
  }

  function Pad(plaintext: bytes): (r: bytes)
    ensures |r| % BLOCK == 0
  {
    plaintext + Padding(BLOCK - |plaintext| % BLOCK)
  }

  lemma SplitAt(head: bytes, tail: bytes, k: nat)
    requires k <= |tail|
    ensures (head + tail)[..|head| + k] == head + tail[..k]
    ensures (head + tail)[|head| + k..] == tail[k..]
  {
  }

  /** Unpadding looks at the last block only. */
  lemma UnpadLastBlock(head: bytes, last: Block)
    requires |head| % BLOCK == 0
    ensures Unpad(head + last) == match PadLength(last)
                                  case Some(n) => Some(head + last[..BLOCK - n])
                                  case None => None
  {
    assert (head + last)[|head|..] == last;
    match PadLength(last)
    case None =>
    case Some(n) => SplitAt(head, last, BLOCK - n);
  }

  /** A block filled up with its padding claims exactly that padding. */
  lemma PaddedBlock(rest: bytes, n: nat)
    requires 1 <= n <= BLOCK && |rest| == BLOCK - n
    ensures PadLength(rest + Padding(n)) == Some(n)
  {
    var last := rest + Padding(n);
    assert last[BLOCK - 1] == n as bv8 && (n as bv8) as nat == n;
  }

  lemma UnpadPad(plaintext: bytes)
    ensures Unpad(Pad(plaintext)) == Some(plaintext)
  {
    var w := WholeBlocks(|plaintext|);
    var n := BLOCK - |plaintext| % BLOCK;
    UnpadPadded(plaintext[..w], plaintext[w..], n);
    assert Pad(plaintext) == plaintext[..w] + (plaintext[w..] + Padding(n));
    assert plaintext[..w] + plaintext[w..] == plaintext;
  }

  lemma UnpadPadded(head: bytes, rest: bytes, n: nat)
    requires |head| % BLOCK == 0 && 1 <= n <= BLOCK && |rest| == BLOCK - n
    ensures Unpad(head + (rest + Padding(n))) == Some(head + rest)
  {
    PaddedBlock(rest, n);
    UnpadLastBlock(head, rest + Padding(n));
    assert (rest + Padding(n))[..BLOCK - n] == rest;
  }

  /** Padding claims its own length: 1 to 16 bytes, all of that value, up to a whole block. */
  ghost predicate WellPadded(padded: bytes) {
    && padded != [] && |padded| % 16 == 0
    && 1 <= padded[|padded| - 1] <= 16
    && forall i :: |padded| - (padded[|padded| - 1] as nat) <= i < |padded| ==> padded[i] == padded[|padded| - 1]
  }

  /** Exactly the well padded strings are unpadded, by as many bytes as the last one says. */
  lemma UnpadRejectsExactly(padded: bytes)
    ensures Unpad(padded) == None <==> !WellPadded(padded)
    ensures WellPadded(padded) ==> Unpad(padded) == Some(padded[..|padded| - padded[|padded| - 1] as nat])
  {
    if padded != [] && |padded| % BLOCK == 0 {
      var last := padded[|padded| - BLOCK..];
      assert last[BLOCK - 1] == padded[|padded| - 1];
      forall i | 0 <= i < BLOCK
        ensures last[i] == padded[|padded| - BLOCK + i]
      {
      }
      if PadLength(last).Some? {
        var n := PadLength(last).value;
        forall i | |padded| - n <= i < |padded|
          ensures padded[i] == padded[|padded| - 1]
        {
          assert last[i - (|padded| - BLOCK)] == padded[i];
        }
      }
    }
  }

  lemma PaddedTail(padded: bytes, n: nat)
    requires 1 <= n <= BLOCK && n <= |padded|
    requires forall i :: |padded| - n <= i < |padded| ==> padded[i] == n as bv8
    ensures padded == padded[..|padded| - n] + Padding(n)
  {
    var tail := padded[|padded| - n..];
    forall i | 0 <= i < n
      ensures tail[i] == Padding(n)[i]
    {
      assert tail[i] == padded[|padded| - n + i];
    }
    assert tail == Padding(n);
  }

  lemma WellPaddedIsPadded(padded: bytes)
    requires WellPadded(padded)
    ensures padded == Pad(padded[..|padded| - padded[|padded| - 1] as nat])
  {
    var n := padded[|padded| - 1] as nat;
    assert n as bv8 == padded[|padded| - 1];
    PaddedTail(padded, n);
    PadAmount(|padded|, n);
  }

  /** What unpads to a plaintext is that plaintext padded. */
  lemma UnpadExactly(padded: bytes, plaintext: bytes)
    ensures Unpad(padded) == Some(plaintext) <==> padded == Pad(plaintext)
  {
    UnpadRejectsExactly(padded);
    if Unpad(padded) == Some(plaintext) {
      WellPaddedIsPadded(padded);
    }
    if padded == Pad(plaintext) {
      UnpadPad(plaintext);
    }
  }

  lemma PadAmount(size: nat, n: nat)
    requires size % BLOCK == 0 && 1 <= n <= BLOCK && n <= size
    ensures BLOCK - (size - n) % BLOCK == n
  {
  }
}
