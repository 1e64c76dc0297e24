/** gateway/internal/provider/netease/crypto.go: PKCS#7 padding (RFC 5652, section 6.3) and ECB mode
    (NIST SP 800-38A, section 6.1) over an abstract block permutation. */
module Ecb {

  newtype byte = x: int | 0 <= x < 256

  type Bytes = seq<byte>

  const BLOCK := 16

  datatype Result = Ok(data: Bytes) | BadKey | NotWholeBlocks

  // ---- padding ----

  function Repeat(b: byte, n: nat): Bytes { seq(n, _ => b) }

  function PadLength(n: nat, blockSize: nat): nat
    requires 0 < blockSize
  {
    blockSize - n % blockSize
  }

  function Pad(data: Bytes, blockSize: nat): (r: Bytes)
    requires 0 < blockSize
    ensures |data| < |r| <= |data| + blockSize
    ensures blockSize == BLOCK ==> |r| % BLOCK == 0
  {
    var p := PadLength(|data|, blockSize);
    data + Repeat((p % 256) as byte, p)  // a byte keeps the low eight bits
  }

  /** Padded data fills the next whole number of blocks, of any size. */
  lemma PadFillsBlocks(data: Bytes, blockSize: nat)
    requires 0 < blockSize
    ensures |Pad(data, blockSize)| == blockSize * (|data| / blockSize + 1)
  {}

  /** Data whose last byte does not read as a possible padding comes back whole. */
  function Unpad(data: Bytes): Bytes {
    if data == [] then data
    else
      var padding := data[|data| - 1] as int;
      if padding > |data| || padding > BLOCK then data else data[..|data| - padding]
  }

  /** Unpadding drops what the last byte says when that is at most sixteen and at most all, else nothing. */
  lemma UnpadDrops(data: Bytes)
    ensures |Unpad(data)| <= |data| && Unpad(data) == data[..|Unpad(data)|]
    ensures data != [] ==>
              var last := data[|data| - 1] as int;
              |data| - |Unpad(data)| == if last <= 16 && last <= |data| then last else 0
  {}

  /** Unpadding undoes padding exactly when the padding fits an AES block. */
  lemma UnpadUndoesPadIff(data: Bytes, blockSize: nat)
    requires 0 < blockSize
    ensures Unpad(Pad(data, blockSize)) == data <==> PadLength(|data|, blockSize) <= BLOCK
    ensures blockSize <= BLOCK ==> Unpad(Pad(data, blockSize)) == data
  {
    var p, padded := PadLength(|data|, blockSize), Pad(data, blockSize);
    assert padded[|padded| - 1] == (p % 256) as byte;
    if p <= BLOCK {
      assert padded[..|padded| - p] == data;
    }
  }

  /** The last p bytes all say p, for a p from 1 to 16. */
  ghost predicate ProperlyPadded(data: Bytes) {
    && data != [] && |data| % BLOCK == 0
    && var p := data[|data| - 1] as int;
       1 <= p <= BLOCK && forall i :: |data| - p <= i < |data| ==> i >= 0 && data[i] as int == p
  }

  lemma PaddedIsProper(data: Bytes)
    ensures ProperlyPadded(Pad(data, BLOCK))
  {
    var q, padded := PadLength(|data|, BLOCK), Pad(data, BLOCK);
    assert padded[|padded| - 1] == q as byte;
    assert forall i :: |padded| - q <= i < |padded| ==> padded[i] == q as byte;
  }

  lemma PaddingTaken(n: nat, p: nat)
    requires n % BLOCK == 0 && 1 <= p <= BLOCK && p <= n
    ensures PadLength(n - p, BLOCK) == p
  {}

  lemma PaddingBytes(data: Bytes, p: nat)
    requires p < 256 && p <= |data| && forall i :: |data| - p <= i < |data| ==> data[i] as int == p
    ensures data == data[..|data| - p] + Repeat(p as byte, p)
  {}

  lemma ProperIsRestored(data: Bytes)
    requires ProperlyPadded(data)
    ensures Pad(Unpad(data), BLOCK) == data
  {
    var p := data[|data| - 1] as int;
    assert |data| - p >= 0;
    PaddingTaken(|data|, p);
    PaddingBytes(data, p);
  }

  /** Padding undoes unpadding exactly on properly padded whole blocks. */
  lemma PadUndoesUnpadIff(data: Bytes)
    ensures Pad(Unpad(data), BLOCK) == data <==> ProperlyPadded(data)
  {
    PaddedIsProper(Unpad(data));
    if ProperlyPadded(data) {
      ProperIsRestored(data);
    }
  }

  // ---- ECB ----

  /** A cipher under one key: two maps on blocks, each undoing the other. */
  ghost predicate Permutation(enc: Bytes -> Bytes, dec: Bytes -> Bytes) {
    Undoes(dec, enc) && Undoes(enc, dec)
  }

  /** f maps blocks to blocks, and g maps each back. */
  ghost predicate Undoes(g: Bytes -> Bytes, f: Bytes -> Bytes) {
    forall b :: |b| == BLOCK ==> |f(b)| == BLOCK && g(f(b)) == b
  }

  ghost predicate OnBlocks(f: Bytes -> Bytes) {
    forall b :: |b| == BLOCK ==> |f(b)| == BLOCK
  }

  /** f on each block in turn; a trailing part block is dropped. */
  function EachBlock(f: Bytes -> Bytes, data: Bytes): Bytes {
    if |data| < BLOCK then [] else f(data[..BLOCK]) + EachBlock(f, data[BLOCK..])
  }

  lemma {:induction false} EachBlockLength(f: Bytes -> Bytes, data: Bytes)
    requires OnBlocks(f) && |data| % BLOCK == 0
    ensures |EachBlock(f, data)| == |data|
  {
    if |data| >= BLOCK {
      EachBlockLength(f, data[BLOCK..]);
    }
  }

  lemma EachBlockCons(f: Bytes -> Bytes, head: Bytes, rest: Bytes)
    requires |head| == BLOCK
    ensures EachBlock(f, head + rest) == f(head) + EachBlock(f, rest)
  {
    assert (head + rest)[..BLOCK] == head && (head + rest)[BLOCK..] == rest;
  }

  lemma {:induction false} EachBlockUndone(f: Bytes -> Bytes, g: Bytes -> Bytes, data: Bytes)
    requires Undoes(g, f) && |data| % BLOCK == 0
    ensures EachBlock(g, EachBlock(f, data)) == data
  {
    if |data| >= BLOCK {
      var head, rest := data[..BLOCK], data[BLOCK..];
      EachBlockUndone(f, g, rest);
      EachBlockCons(g, f(head), EachBlock(f, rest));
      assert EachBlock(f, data) == f(head) + EachBlock(f, rest);
      assert data == head + rest;
    }
  }

  lemma {:induction false} EachBlockAppend(f: Bytes -> Bytes, data: Bytes, block: Bytes)
    requires OnBlocks(f) && |data| % BLOCK == 0 && |block| == BLOCK
    ensures EachBlock(f, data + block) == EachBlock(f, data) + f(block)
  {
    if |data| >= BLOCK {
      EachBlockAppend(f, data[BLOCK..], block);
      assert (data + block)[..BLOCK] == data[..BLOCK] && (data + block)[BLOCK..] == data[BLOCK..] + block;
    } else {
      assert data + block == block && block[..BLOCK] == block && block[BLOCK..] == [];
    }
  }

  predicate GoodKey(key: Bytes) { |key| == 16 || |key| == 24 || |key| == 32 }

  function Encrypt(enc: Bytes -> Bytes, plaintext: Bytes): Bytes { EachBlock(enc, Pad(plaintext, BLOCK)) }

  function Decrypt(dec: Bytes -> Bytes, ciphertext: Bytes): Bytes { Unpad(EachBlock(dec, ciphertext)) }

  /** Decryption undoes encryption of plaintexts of every length. */
  lemma DecryptUndoesEncrypt(enc: Bytes -> Bytes, dec: Bytes -> Bytes, plaintext: Bytes)
    requires Permutation(enc, dec)
    ensures Decrypt(dec, Encrypt(enc, plaintext)) == plaintext
  {
    EachBlockUndone(enc, dec, Pad(plaintext, BLOCK));
    UnpadUndoesPadIff(plaintext, BLOCK);
  }

  /** The other way round, a ciphertext of whole blocks is reproduced iff what it decrypts to was
      properly padded, which decryption itself does not check. */
  lemma EncryptUndoesDecryptIff(enc: Bytes -> Bytes, dec: Bytes -> Bytes, ciphertext: Bytes)
    requires Permutation(enc, dec) && |ciphertext| % BLOCK == 0
    ensures Encrypt(enc, Decrypt(dec, ciphertext)) == ciphertext <==> ProperlyPadded(EachBlock(dec, ciphertext))
  {
    var plain := EachBlock(dec, ciphertext);
    EachBlockUndone(dec, enc, ciphertext);
    PadUndoesUnpadIff(plain);
    var repadded := Pad(Unpad(plain), BLOCK);
    EachBlockUndone(enc, dec, repadded);
    EachBlockLength(dec, ciphertext);
    EachBlockUndone(enc, dec, plain);
  }

  // ---- the loops ----

  method WriteBlock(dst: array<byte>, i: nat, block: Bytes)
    requires |block| == BLOCK && i + BLOCK <= dst.Length
    modifies dst
    ensures dst[..i + BLOCK] == old(dst[..i]) + block
  {
    forall k | 0 <= k < BLOCK {
      dst[i + k] := block[k];
    }
  }

  /** Writes f of each block of `src` into the same place of a fresh buffer. */
  method CryptBlocks(f: Bytes -> Bytes, src: Bytes) returns (dst: array<byte>)
    requires OnBlocks(f) && |src| % BLOCK == 0
    ensures fresh(dst) && dst[..] == EachBlock(f, src)
  {
    dst := new byte[|src|](_ => 0);
    var i := 0;
    while i < |src|
      invariant 0 <= i <= |src| && i % BLOCK == 0 && dst.Length == |src|
      invariant dst[..i] == EachBlock(f, src[..i])
    {
      var block := f(src[i..i + BLOCK]);
      WriteBlock(dst, i, block);
      EachBlockAppend(f, src[..i], src[i..i + BLOCK]);
      assert src[..i + BLOCK] == src[..i] + src[i..i + BLOCK];
      i := i + BLOCK;
    }
    assert src[..i] == src && dst[..i] == dst[..];
  }

  method AesEncryptECB(plaintext: Bytes, key: Bytes, enc: Bytes -> Bytes) returns (r: Result)
    requires OnBlocks(enc)
    ensures r == if GoodKey(key) then Ok(Encrypt(enc, plaintext)) else BadKey
    ensures r == BadKey <==> |key| !in {16, 24, 32}
  {
    if !GoodKey(key) {
      return BadKey;
    }
    var padded := Pad(plaintext, BLOCK);
    var ciphertext := CryptBlocks(enc, padded);
    return Ok(ciphertext[..]);
  }

  method AesDecryptECB(ciphertext: Bytes, key: Bytes, dec: Bytes -> Bytes) returns (r: Result)
    requires OnBlocks(dec)
    ensures r == if !GoodKey(key) then BadKey
                 else if |ciphertext| % BLOCK != 0 then NotWholeBlocks
                 else Ok(Decrypt(dec, ciphertext))
    ensures r == BadKey <==> |key| !in {16, 24, 32}
  {
    if !GoodKey(key) {
      return BadKey;
    }
    if |ciphertext| % BLOCK != 0 {
      return NotWholeBlocks;
    }
    var plaintext := CryptBlocks(dec, ciphertext);
    return Ok(Unpad(plaintext[..]));
  }
}
