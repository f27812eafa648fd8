/** The two content decryptors. Each consumes ciphertext in chunks of any size and releases
    plaintext early; `CipherSpec` is the chunk-free meaning they are proved against. */
module Decryptors {
  import opened Wrappers
  import opened AesGcm
  import opened AesCbc

  /** The cipher an object is read with. */
  datatype CipherSpec = GcmSpec(gcm: Gcm) | CbcSpec(cbc: Cbc) {

    /** One-shot decryption of a whole body. */
    function Whole(body: bytes): Result<bytes, Failure> {
      match this
      case GcmSpec(gcm) => gcm.Open(body)
      case CbcSpec(cbc) => cbc.Open(body)
    }

    /** The plaintext that may be out once `fed` went in and more may follow: GCM holds back
        what may be the tag, CBC holds back what may be padding. */
    function Released(fed: bytes): bytes {
      match this
      case GcmSpec(gcm) => gcm.Mask(0, fed[..BeforeTag(|fed|)])
      case CbcSpec(cbc) =>
        var n := WholeBlocks(|fed|);
        cbc.Decrypt(cbc.iv, fed[..n])[..BeforePadding(n)]
    }

    /** How much may be out after `n` bytes: a matter of lengths only. */
    function ReleasedLength(n: nat): (r: nat)
      ensures r <= n
    {
      if GcmSpec? then BeforeTag(n) else BeforePadding(n)
    }

    lemma ReleasedLengthIs(fed: bytes)
      ensures |Released(fed)| == ReleasedLength(|fed|)
    {
    }

    lemma ReleasedLengthGrows(n: nat, m: nat)
      requires n <= m
      ensures ReleasedLength(n) <= ReleasedLength(m)
    {
    }

    /** The most ciphertext that can be in without anything more coming out. */
    function HeldBack(): nat {
      if GcmSpec? then TAG_LENGTH else 2 * BLOCK - 1
    }

    lemma HoldsBackAtMost(n: nat)
      ensures n <= ReleasedLength(n) + HeldBack()
      ensures n + 1 > ReleasedLength(n) + HeldBack() ==> ReleasedLength(n + 1) > ReleasedLength(n)
    {
    }

    /** By how much a read can exceed its size: nothing for GCM; for CBC what a block and the
        padding had held back comes out at once. */
    function Overshoot(): nat {
      if GcmSpec? then 0 else 2 * BLOCK - 2
    }

    /** Plaintext comes out in multiples of this. */
    function Unit(): nat {
      if GcmSpec? then 1 else BLOCK
    }

    /** The first byte more than can be held back releases one unit. */
    lemma FirstRelease(n: nat)
      ensures ReleasedLength(ReleasedLength(n) + HeldBack() + 1) == ReleasedLength(n) + Unit()
    {
    }

    /** What is held back and a unit more never releases more than that unit. */
    lemma UnitReleased(n: nat, m: nat)
      requires m <= ReleasedLength(n) + HeldBack() + Unit()
      ensures ReleasedLength(m) > ReleasedLength(n) ==> ReleasedLength(m) == ReleasedLength(n) + Unit()
    {
    }

    /** While no more than can be held back is in, nothing more is released. */
    lemma NothingMore(n: nat, m: nat)
      requires n <= m <= ReleasedLength(n) + HeldBack()
      ensures ReleasedLength(m) == ReleasedLength(n)
    {
    }

    lemma PlaintextLength(body: bytes)
      ensures Whole(body).Ok? ==> |Whole(body).value| + HeldBack() <= |body| + Overshoot()
      ensures ReleasedLength(|body|) > 0 ==> ReleasedLength(|body|) + HeldBack() <= |body| + Overshoot()
    {
    }

    lemma NothingReleased(fed: bytes)
      requires |fed| == 0
      ensures Released(fed) == []
    {
    }

    /** Early release only ever grows, and only ever shows a prefix of the final plaintext. */
    lemma ReleasedIsPrefix(fed: bytes, rest: bytes)
      ensures Released(fed) <= Released(fed + rest)
      ensures Whole(fed + rest).Ok? ==> Released(fed + rest) <= Whole(fed + rest).value
    {
      var all := fed + rest;
      match this {
        case GcmSpec(gcm) =>
          var n, m := BeforeTag(|fed|), BeforeTag(|all|);
          assert fed[..n] == all[..n] == all[..m][..n];
          gcm.MaskPrefix(all[..m], n);
        case CbcSpec(cbc) =>
          var n, m := WholeBlocks(|fed|), WholeBlocks(|all|);
          assert fed[..n] == all[..n] == all[..m][..n];
          cbc.DecryptPrefix(all[..m], n);
          if |all| % BLOCK == 0 {
            assert all[..m] == all;
          }
      }
    }
  }

  function BeforeTag(n: nat): (r: nat)
    ensures r <= n
  {
    if n <= TAG_LENGTH then 0 else n - TAG_LENGTH
  }

  function BeforePadding(n: nat): (r: nat)
    ensures r <= n && r % BLOCK == 0 && (r > 0 ==> n - r >= BLOCK)
  {
    if WholeBlocks(n) == 0 then 0 else WholeBlocks(n) - BLOCK
  }

  lemma BeforePaddingAdd(n: nat, k: nat)
    requires n % BLOCK == 0 && (n > 0 ==> k >= BLOCK)
    ensures BeforePadding(n + k) == n + BeforePadding(k)
  {
    WholeBlocksAdd(n, k);
  }

  // ---- The library's cipher contexts, as values ----

  /** A GCM decryption context: the ciphertext it was given so far. */
  datatype GcmContext = GcmContext(gcm: Gcm, seen: bytes) {
    function Update(data: bytes): (GcmContext, bytes) {
      (this.(seen := seen + data), gcm.Mask(|seen|, data))
    }

    predicate TagVerifies(tag: bytes) {
      tag == gcm.Tag(seen)
    }
  }

  /** A CBC decryption context: it buffers a partial block and chains from the last whole one. */
  datatype CbcContext = CbcContext(cbc: Cbc, previous: Block, buffer: bytes) {
    function Update(data: bytes): (r: (CbcContext, bytes)) {
      var all := buffer + data;
      var n := WholeBlocks(|all|);
      (this.(previous := LastBlock(previous, all[..n]), buffer := all[n..]), cbc.Decrypt(previous, all[..n]))
    }

    /** What the context holds once `fed` has gone in. */
    ghost predicate Holds(fed: bytes) {
      && buffer == fed[WholeBlocks(|fed|)..]
      && previous == LastBlock(cbc.iv, fed[..WholeBlocks(|fed|)])
    }

    lemma BufferEmptyOnWholeBlocks(fed: bytes)
      requires Holds(fed)
      ensures buffer == [] <==> |fed| % BLOCK == 0
      ensures buffer == [] ==> fed[..WholeBlocks(|fed|)] == fed
    {
    }

    lemma UpdateHolds(fed: bytes, data: bytes)
      requires Holds(fed)
      ensures Update(data).0.Holds(fed + data)
      ensures var n, m := WholeBlocks(|fed|), WholeBlocks(|fed + data|);
              cbc.Decrypt(cbc.iv, (fed + data)[..m]) == cbc.Decrypt(cbc.iv, fed[..n]) + Update(data).1
    {
      var head, all := fed[..WholeBlocks(|fed|)], buffer + data;
      var blocks := all[..WholeBlocks(|all|)];
      BlocksSplit(fed, data);
      cbc.DecryptConcat(cbc.iv, head, blocks);
      LastBlockConcat(cbc.iv, head, blocks, head + blocks);
    }
  }

  /** The whole blocks of a longer message are those of its start and those of the rest. */
  lemma BlocksSplit(fed: bytes, data: bytes)
    ensures var n, m := WholeBlocks(|fed|), WholeBlocks(|fed + data|);
            var all := fed[n..] + data;
            && (fed + data)[..m] == fed[..n] + all[..WholeBlocks(|all|)]
            && (fed + data)[m..] == all[WholeBlocks(|all|)..]
  {
    var n := WholeBlocks(|fed|);
    var all := fed[n..] + data;
    assert fed + data == fed[..n] + all;
    WholeBlocksAdd(n, |all|);
    SplitAt(fed[..n], all, WholeBlocks(|all|));
  }

  lemma LastBlockConcat(first: Block, a: bytes, b: bytes, ab: bytes)
    requires |a| % BLOCK == 0 && |b| % BLOCK == 0 && |ab| % BLOCK == 0 && ab == a + b
    ensures LastBlock(LastBlock(first, a), b) == LastBlock(first, ab)
  {
    if b == [] {
      assert ab == a;
    } else {
      assert ab[|ab| - BLOCK..] == b[|b| - BLOCK..];
    }
  }

  /** A PKCS7 unpadding context: it holds back the last whole block and anything after it. */
  datatype UnpadContext = UnpadContext(buffer: bytes) {
    function Update(data: bytes): (UnpadContext, bytes) {
      var all := buffer + data;
      (UnpadContext(all[BeforePadding(|all|)..]), all[..BeforePadding(|all|)])
    }

    function Finalize(): Option<bytes> {
      if |buffer| != BLOCK then None else Unpad(buffer)
    }

    ghost predicate Holds(fed: bytes) {
      buffer == fed[BeforePadding(|fed|)..]
    }

    lemma UpdateHolds(fed: bytes, data: bytes)
      requires Holds(fed)
      ensures Update(data).0.Holds(fed + data)
      ensures (fed + data)[..BeforePadding(|fed + data|)] == fed[..BeforePadding(|fed|)] + Update(data).1
    {
      var n := BeforePadding(|fed|);
      var all := buffer + data;
      assert fed + data == fed[..n] + all;
      BeforePaddingAdd(n, |all|);
      SplitAt(fed[..n], all, BeforePadding(|all|));
    }

    lemma FinalizeUnpads(fed: bytes)
      requires Holds(fed)
      ensures match Finalize() {
                case Some(last) => Unpad(fed) == Some(fed[..BeforePadding(|fed|)] + last)
                case None => Unpad(fed) == None
              }
    {
      var head := fed[..BeforePadding(|fed|)];
      OneBlockLeft(|fed|);
      assert fed == head + buffer;
      UnpadTail(head, buffer);
    }
  }

  /** Unpadding a message is unpadding its last block, when it ends in one. */
  lemma UnpadTail(head: bytes, tail: bytes)
    requires |tail| == BLOCK ==> |head| % BLOCK == 0
    requires |tail| != BLOCK ==> head + tail == [] || |head + tail| % BLOCK != 0
    ensures match UnpadContext(tail).Finalize() {
              case Some(last) => Unpad(head + tail) == Some(head + last)
              case None => Unpad(head + tail) == None
            }
  {
    if |tail| == BLOCK {
      UnpadLastBlock(head, tail);
      assert [] + tail == tail;
      UnpadLastBlock([], tail);
    }
  }

  lemma OneBlockLeft(n: nat)
    ensures n - BeforePadding(n) == BLOCK <==> n > 0 && n % BLOCK == 0
  {
  }

  /** `seen` went to the cipher and `tail` is held back, of all that was fed. */
  ghost predicate TailHeldBack(fed: bytes, seen: bytes, tail: bytes) {
    seen == fed[..BeforeTag(|fed|)] && tail == fed[BeforeTag(|fed|)..]
  }

  /** How the next chunk divides: what goes to the cipher and comes out, and the new tail. */
  lemma GcmUpdates(gcm: Gcm, fed: bytes, seen: bytes, tail: bytes, data: bytes)
    requires TailHeldBack(fed, seen, tail)
    ensures var spec, buf := GcmSpec(gcm), tail + data;
            if |buf| <= TAG_LENGTH then
              TailHeldBack(fed + data, seen, buf) && spec.Released(fed + data) == spec.Released(fed) + []
            else
              var n := |buf| - TAG_LENGTH;
              && TailHeldBack(fed + data, seen + buf[..n], buf[n..])
              && spec.Released(fed + data) == spec.Released(fed) + gcm.Mask(|seen|, buf[..n])
  {
    var buf := tail + data;
    var n := BeforeTag(|buf|);
    assert fed + data == seen + buf;
    SplitAt(seen, buf, n);
    gcm.MaskConcat(0, seen, buf[..n]);
    assert n == 0 ==> seen + buf[..n] == seen && buf[n..] == buf;
  }

  /** Cipher and unpadder were fed this ciphertext. */
  ghost predicate CbcFed(cbc: Cbc, decryptor: CbcContext, unpadder: UnpadContext, fed: bytes) {
    && decryptor.cbc == cbc
    && decryptor.Holds(fed)
    && unpadder.Holds(Deciphered(cbc, fed))
  }

  /** The plaintext the cipher has handed to the unpadder. */
  function Deciphered(cbc: Cbc, fed: bytes): bytes {
    cbc.Decrypt(cbc.iv, fed[..WholeBlocks(|fed|)])
  }

  lemma CbcStarts(cbc: Cbc, fed: bytes)
    requires |fed| == 0
    ensures CbcFed(cbc, CbcContext(cbc, cbc.iv, fed), UnpadContext(fed), fed)
  {
    assert Deciphered(cbc, fed) == fed;
  }

  /** One chunk through both stages. */
  lemma CbcUpdates(cbc: Cbc, decryptor: CbcContext, unpadder: UnpadContext, fed: bytes, data: bytes)
    requires CbcFed(cbc, decryptor, unpadder, fed)
    ensures var (cipher, deciphered) := decryptor.Update(data);
            var (rest, out) := unpadder.Update(deciphered);
            && CbcFed(cbc, cipher, rest, fed + data)
            && CbcSpec(cbc).Released(fed + data) == CbcSpec(cbc).Released(fed) + out
  {
    decryptor.UpdateHolds(fed, data);
    unpadder.UpdateHolds(Deciphered(cbc, fed), decryptor.Update(data).1);
  }

  // ---- The client's decryptors ----

  /** GCM with a rolling tail: the last 16 bytes fed so far never reach the cipher. */
  class AesGcmDecryptor {
    var decryptor: GcmContext
    const contentLength: nat
    var amountRead: nat
    var tail: bytes
    ghost const gcm: Gcm
    ghost var fed: bytes

    ghost predicate Valid()
      reads this
    {
      && decryptor.gcm == gcm
      && amountRead == |fed|
      && TailHeldBack(fed, decryptor.seen, tail)
    }

    constructor (gcm: Gcm, contentLength: nat)
      ensures Valid() && fed == [] && amountRead == 0 && this.gcm == gcm && this.contentLength == contentLength
    {
      this.decryptor := GcmContext(gcm, []);
      this.contentLength := contentLength;
      this.amountRead := 0;
      this.tail := [];
      this.gcm := gcm;
      this.fed := [];
    }

    method Update(data: bytes) returns (plaintext: bytes)
      requires Valid()
      modifies this
      ensures Valid() && fed == old(fed) + data
      ensures GcmSpec(gcm).Released(fed) == GcmSpec(gcm).Released(old(fed)) + plaintext
      ensures |plaintext| <= |data|
    {
      amountRead := amountRead + |data|;
      var buf := tail + data;
      GcmUpdates(gcm, fed, decryptor.seen, tail, data);
      fed := fed + data;
      if |buf| <= TAG_LENGTH {
        tail := buf;
        return [];
      }
      var n := |buf| - TAG_LENGTH;
      var (next, out) := decryptor.Update(buf[..n]);
      tail, decryptor := buf[n..], next;
      plaintext := out;
    }

    /** Feed the last chunk and verify the tag. On success the plaintext completes what was released. */
    method Finalize(data: bytes) returns (r: Result<bytes, Failure>)
      requires Valid()
      modifies this
      ensures fed == old(fed) + data && amountRead == |fed|
      ensures decryptor.seen == fed[..BeforeTag(|fed|)]
      ensures match GcmSpec(gcm).Whole(fed) {
                case Ok(whole) => r.Ok? && GcmSpec(gcm).Released(old(fed)) + r.value == whole
                case Err(e) => r == Err(e)
              }
      ensures r.Ok? ==> |r.value| <= |data|
    {
      amountRead := amountRead + |data|;
      var buf := tail + data;
      fed := fed + data;
      assert fed == decryptor.seen + buf;
      if |buf| < TAG_LENGTH {
        return Err(IncompleteGcmData);
      }
      var n := |buf| - TAG_LENGTH;
      var tag, ciphertext := buf[n..], buf[..n];
      assert fed[..|fed| - TAG_LENGTH] == decryptor.seen + ciphertext;
      assert fed[|fed| - TAG_LENGTH..] == tag;
      gcm.MaskConcat(0, decryptor.seen, ciphertext);
      var plaintext := [];
      if ciphertext != [] {
        var (next, out) := decryptor.Update(ciphertext);
        decryptor := next;
        plaintext := out;
      } else {
        assert decryptor.seen + ciphertext == decryptor.seen;
      }
      if !decryptor.TagVerifies(tag) {
        return Err(InvalidTag);
      }
      return Ok(plaintext);
    }
  }

  /** CBC: a block-buffering cipher followed by a hold-back unpadder. */
  class AesCbcDecryptor {
    var decryptor: CbcContext
    var unpadder: UnpadContext
    const contentLength: nat
    var amountRead: nat
    ghost const cbc: Cbc
    ghost var fed: bytes

    ghost predicate Valid()
      reads this
    {
      amountRead == |fed| && CbcFed(cbc, decryptor, unpadder, fed)
    }

    constructor (cbc: Cbc, contentLength: nat)
      ensures Valid() && fed == [] && amountRead == 0 && this.cbc == cbc && this.contentLength == contentLength
    {
      this.decryptor := CbcContext(cbc, cbc.iv, []);
      this.unpadder := UnpadContext([]);
      this.contentLength := contentLength;
      this.amountRead := 0;
      this.cbc := cbc;
      this.fed := [];
      new;
      CbcStarts(cbc, fed);
    }

    method Update(data: bytes) returns (plaintext: bytes)
      requires Valid()
      modifies this
      ensures Valid() && fed == old(fed) + data
      ensures CbcSpec(cbc).Released(fed) == CbcSpec(cbc).Released(old(fed)) + plaintext
    {
      amountRead := amountRead + |data|;
      CbcUpdates(cbc, decryptor, unpadder, fed, data);
      var (cipher, deciphered) := decryptor.Update(data);
      var (rest, out) := unpadder.Update(deciphered);
      decryptor, unpadder := cipher, rest;
      fed := fed + data;
      plaintext := out;
    }

    /** Feed the last chunk, flush the cipher and remove the padding. Every failure is the same error. */
    method Finalize(data: bytes) returns (r: Result<bytes, Failure>)
      requires Valid()
      modifies this
      ensures fed == old(fed) + data && amountRead == |fed|
      ensures match CbcSpec(cbc).Whole(fed) {
                case Ok(whole) => r.Ok? && CbcSpec(cbc).Released(old(fed)) + r.value == whole
                case Err(e) => r == Err(e)
              }
    {
      amountRead := amountRead + |data|;
      ghost var before := Deciphered(cbc, fed);
      var deciphered := [];
      if data != [] {
        decryptor.UpdateHolds(fed, data);
        var (cipher, out) := decryptor.Update(data);
        decryptor := cipher;
        deciphered := out;
      } else {
        assert fed + data == fed;
        assert before + deciphered == before;
      }
      fed := fed + data;
      decryptor.BufferEmptyOnWholeBlocks(fed);
      if decryptor.buffer != [] {
        return Err(CbcFailure);
      }
      assert before + deciphered == cbc.Decrypt(cbc.iv, fed);
      var out := Flush(unpadder, before, deciphered);
      match out
      case None => return Err(CbcFailure);
      case Some(last) => return Ok(last);
    }

    /** The unpadder's last update and its finalize. */
    static method Flush(unpadder: UnpadContext, ghost before: bytes, data: bytes) returns (r: Option<bytes>)
      requires unpadder.Holds(before)
      ensures match r {
                case Some(out) => Unpad(before + data) == Some(before[..BeforePadding(|before|)] + out)
                case None => Unpad(before + data) == None
              }
    {
      unpadder.UpdateHolds(before, data);
      var (rest, released) := unpadder.Update(data);
      rest.FinalizeUnpads(before + data);
      match rest.Finalize()
      case None => return None;
      case Some(last) =>
        assert before[..BeforePadding(|before|)] + released + last == before[..BeforePadding(|before|)] + (released + last);
        return Some(released + last);
    }
  }

  /** The decryptor a stream was built with, and dispatch to it. */
  datatype Decryptor = GcmDecryptor(gcm: AesGcmDecryptor) | CbcDecryptor(cbc: AesCbcDecryptor) {
    ghost function Object(): object {
      match this
      case GcmDecryptor(gcm) => gcm
      case CbcDecryptor(cbc) => cbc
    }

    ghost predicate Valid()
      reads Object()
    {
      match this
      case GcmDecryptor(gcm) => gcm.Valid()
      case CbcDecryptor(cbc) => cbc.Valid()
    }

    ghost function Spec(): CipherSpec {
      match this
      case GcmDecryptor(gcm) => GcmSpec(gcm.gcm)
      case CbcDecryptor(cbc) => CbcSpec(cbc.cbc)
    }

    /** All ciphertext given to this decryptor so far. */
    ghost function Fed(): bytes
      reads Object()
    {
      match this
      case GcmDecryptor(gcm) => gcm.fed
      case CbcDecryptor(cbc) => cbc.fed
    }

    function AmountRead(): nat
      reads Object()
    {
      match this
      case GcmDecryptor(gcm) => gcm.amountRead
      case CbcDecryptor(cbc) => cbc.amountRead
    }

    method Update(data: bytes) returns (plaintext: bytes)
      requires Valid()
      modifies Object()
      ensures Valid() && Fed() == old(Fed()) + data
      ensures Spec().Released(Fed()) == Spec().Released(old(Fed())) + plaintext
      ensures GcmDecryptor? ==> |plaintext| <= |data|
    {
      match this
      case GcmDecryptor(gcm) => plaintext := gcm.Update(data);
      case CbcDecryptor(cbc) => plaintext := cbc.Update(data);
    }

    method Finalize(data: bytes) returns (r: Result<bytes, Failure>)
      requires Valid()
      modifies Object()
      ensures Fed() == old(Fed()) + data && AmountRead() == |Fed()|
      ensures match Spec().Whole(Fed()) {
                case Ok(whole) => r.Ok? && Spec().Released(old(Fed())) + r.value == whole
                case Err(e) => r == Err(e)
              }
      ensures GcmDecryptor? && r.Ok? ==> |r.value| <= |data|
    {
      match this
      case GcmDecryptor(gcm) => r := gcm.Finalize(data);
      case CbcDecryptor(cbc) => r := cbc.Finalize(data);
    }
  }
}
