/** Block padding, its removal, and ECB over an abstract block cipher. */
module Padding {
  import opened Common
  import opened TrimJson

  const AES_BLOCK_SIZE := 16

  datatype Result<+T> = Ok(value: T) | WrongKeyLength | NotBlockAligned | IndexOutOfRange

  /** Bytes that fill the last block, or a whole one, as the padding does. */
  function Fill(length: nat, blockSize: nat): (p: nat)
    requires blockSize > 0
    ensures 1 <= p <= blockSize && (length + p) % blockSize == 0
    ensures p == blockSize <==> length % blockSize == 0
  {
    FillCompletes(length, blockSize);
    blockSize - length % blockSize
  }

  lemma {:induction false} FillCompletes(length: nat, blockSize: nat)
    requires blockSize > 0
    ensures (length + (blockSize - length % blockSize)) % blockSize == 0
  {
    var q := length / blockSize + 1;
    assert length + (blockSize - length % blockSize) == q * blockSize;
    MultipleHasNoRest(q, blockSize);
  }

  lemma {:induction false} MultipleGap(k: int, d: int)
    requires d >= 0
    ensures k >= 1 ==> k * d >= d
    ensures k <= -1 ==> k * d <= -d
  {
  }

  lemma {:induction false} MultipleHasNoRest(q: nat, d: nat)
    requires d > 0
    ensures q * d % d == 0
  {
    var x, r: int := q * d, q * d % d;
    var k := q - x / d;
    assert x == (x / d) * d + r;
    assert k * d == r;
    MultipleGap(k, d);
  }

  function Repeat(b: byte, n: nat): (s: bytes)
    ensures |s| == n && forall i :: 0 <= i < n ==> s[i] == b
  {
    seq(n, i requires 0 <= i < n => b)
  }

  /** data followed by padding bytes, each holding their number. */
  function Padded(data: bytes, blockSize: nat): bytes
    requires blockSize > 0
  {
    var p := Fill(|data|, blockSize);
    data + Repeat(p % 0x100, p)
  }

  function ToBlockSize(data: bytes, blockSize: nat): bytes
    requires blockSize > 0
  {
    if |data| % blockSize == 0 then data else Padded(data, blockSize)
  }

  /** The padding is filled in byte by byte. */
  method FillPadded(data: bytes, padding: nat) returns (padded: array<byte>)
    ensures fresh(padded) && padded[..] == data + Repeat(padding % 0x100, padding)
  {
    padded := new byte[|data| + padding](i => 0);
    for i := 0 to |data|
      invariant forall k :: 0 <= k < i ==> padded[k] == data[k]
    {
      padded[i] := data[i];
    }
    for i := |data| to padded.Length
      invariant forall k :: 0 <= k < |data| ==> padded[k] == data[k]
      invariant forall k :: |data| <= k < i ==> padded[k] == padding % 0x100
    {
      padded[i] := padding % 0x100;
    }
  }

  method PKCS7Pad(data: bytes, blockSize: nat) returns (padded: bytes)
    requires blockSize > 0
    ensures padded == Padded(data, blockSize)
    // In bytes: one block's worth at most, each holding the number of them.
    ensures |padded| % blockSize == 0 && |data| < |padded| <= |data| + blockSize && padded[..|data|] == data
    ensures forall i :: |data| <= i < |padded| ==> padded[i] == (|padded| - |data|) % 0x100
  {
    var buffer := FillPadded(data, blockSize - |data| % blockSize);
    return buffer[..];
  }

  method PadToBlockSize(data: bytes, blockSize: nat) returns (padded: bytes)
    requires blockSize > 0
    ensures padded == ToBlockSize(data, blockSize)
    ensures |data| % blockSize == 0 ==> padded == data
    ensures |padded| % blockSize == 0 && |data| <= |padded| < |data| + blockSize && padded[..|data|] == data
    ensures forall i :: |data| <= i < |padded| ==> padded[i] == (|padded| - |data|) % 0x100
  {
    var padding := blockSize - |data| % blockSize;
    if padding == blockSize {
      return data;
    }
    var buffer := FillPadded(data, padding);
    return buffer[..];
  }

  /** The last k bytes are all k. */
  predicate EndsInPad(data: bytes, k: nat)
    requires k <= |data|
  {
    forall i :: |data| - k <= i < |data| ==> data[i] == k
  }

  /** The only pad length the unpadding accepts: what would complete the data to whole blocks. */
  function ExpectedPad(data: bytes): (k: nat)
    ensures 1 <= k <= AES_BLOCK_SIZE
  {
    AES_BLOCK_SIZE - |data| % AES_BLOCK_SIZE
  }

  /** The unpadding; when the data is shorter than the pad it announces, indexing before its start. */
  function Unpadded(data: bytes): Result<bytes> {
    if data == [] || data[|data| - 1] != ExpectedPad(data) then Ok(data)
    else if ExpectedPad(data) > |data| then IndexOutOfRange
    else if EndsInPad(data, ExpectedPad(data)) then Ok(data[..|data| - ExpectedPad(data)])
    else Ok(data)
  }

  method RemovePKCS7Padding(data: bytes) returns (r: Result<bytes>)
    ensures r == Unpadded(data)
    // In bytes: only a pad of the length that completes the data to 16 is taken off.
    ensures var k := 16 - |data| % 16;
            && (r == IndexOutOfRange <==> 1 <= |data| < k && data[|data| - 1] == k)
            && (r != IndexOutOfRange ==>
                  r == if k <= |data| && (forall i :: |data| - k <= i < |data| ==> data[i] == k) then Ok(data[..|data| - k])
                       else Ok(data))
  {
    if |data| == 0 {
      return Ok(data);
    }
    var padding: int := data[|data| - 1];
    if padding < 1 || padding > AES_BLOCK_SIZE {
      return Ok(data);
    }
    var expectedPaddingLen := AES_BLOCK_SIZE - |data| % AES_BLOCK_SIZE;
    if expectedPaddingLen == 0 {
      return Ok(data);
    }
    if padding != expectedPaddingLen {
      return Ok(data);
    }
    if |data| - padding < 0 {
      return IndexOutOfRange;
    }
    for i := |data| - padding to |data|
      invariant forall k :: |data| - padding <= k < i ==> data[k] == padding
    {
      if data[i] != padding {
        return Ok(data);
      }
    }
    return Ok(data[..|data| - padding]);
  }

  /** The unpadding runs off the front exactly on one to seven bytes whose last announces what they lack
      to a block; block-aligned data never does. */
  lemma {:induction false} UnpadFailsExactly(data: bytes)
    ensures Unpadded(data) == IndexOutOfRange <==> 1 <= |data| < 8 && data[|data| - 1] == 16 - |data|
    ensures |data| % AES_BLOCK_SIZE == 0 ==> Unpadded(data).Ok?
  {
  }

  /** Unpadding what was padded gives the data back exactly when the data already filled its blocks;
      otherwise the padding stays on. */
  lemma {:induction false} UnpadAfterPad(data: bytes)
    ensures Unpadded(Padded(data, 16)) == Ok(data) <==> |data| % 16 == 0
    ensures |data| % 16 != 0 ==> Unpadded(Padded(data, 16)) == Ok(Padded(data, 16))
  {
    var p := Fill(|data|, 16);
    var all := Padded(data, 16);
    assert |all| % 16 == 0;
    if |data| % 16 == 0 {
      assert all[..|data|] == data;
    }
  }

  /** JSON recovery through the padding: at every length of the text, trimming yields the value whether the
      unpadding removed the padding or left it. */
  lemma {:induction false} JsonThroughPadding(v: Json)
    requires TrimJson.Valid(v) && IsContainer(v)
    ensures var r := Unpadded(Padded(Print(v), 16));
            r.Ok? && Trim(r.value) == Print(v)
  {
    hide Print, Trim, TrimJson.Valid;
    var text := Print(v);
    UnpadAfterPad(text);
    TrimRecovers([], v, []);
    TrimRecovers([], v, Repeat(Fill(|text|, 16) % 0x100, Fill(|text|, 16)));
    assert [] + text + [] == text;
    assert [] + text + Repeat(Fill(|text|, 16) % 0x100, Fill(|text|, 16)) == Padded(text, 16);
  }

  /** Padding to the block size gives the shortest extension of the data to whole blocks, and does so once. */
  lemma {:induction false} ToBlockSizeIsLeast(data: bytes, blockSize: nat)
    requires blockSize > 0
    ensures var r := ToBlockSize(data, blockSize);
            && data <= r && |r| % blockSize == 0
            && (forall n: nat :: n >= |data| && n % blockSize == 0 ==> n >= |r|)
            && ToBlockSize(r, blockSize) == r
  {
    var r := ToBlockSize(data, blockSize);
    assert data <= r;
    forall n: nat | n >= |data| && n % blockSize == 0 ensures n >= |r| {
      MultiplesApart(n, |r|, blockSize);
    }
  }

  lemma {:induction false} MultiplesApart(a: nat, b: nat, d: nat)
    requires d > 0 && a % d == 0 && b % d == 0 && a > b - d
    ensures a >= b
  {
    var x: int, y: int := a / d, b / d;
    assert a == x * d && b == y * d;
    assert (y - x) * d == b - a;
    MultipleGap(y - x, d);
  }

  // ----- ECB -----

  /** Encryption and decryption of one block under a key. */
  datatype Cipher = Cipher(encrypt: (bytes, bytes) -> bytes, decrypt: (bytes, bytes) -> bytes) {
    /** Under every key the two are inverse bijections on 16-byte blocks. */
    ghost predicate Bijective() {
      forall key, block :: |key| == 16 && |block| == 16 ==>
        && |encrypt(key, block)| == 16 && |decrypt(key, block)| == 16
        && decrypt(key, encrypt(key, block)) == block && encrypt(key, decrypt(key, block)) == block
    }
  }

  predicate Aligned(data: bytes) {
    |data| % 16 == 0
  }

  /** f applied to each 16-byte block. */
  ghost function EachBlock(f: bytes -> bytes, data: bytes): bytes
    requires Aligned(data)
  {
    if data == [] then [] else EachBlock(f, data[..|data| - 16]) + f(data[|data| - 16..])
  }

  ghost predicate KeepsSize(f: bytes -> bytes) {
    forall block {:trigger f(block)} :: |block| == 16 ==> |f(block)| == 16
  }

  /** On blocks, g gives back what f was given. */
  ghost predicate Undoes(g: bytes -> bytes, f: bytes -> bytes) {
    KeepsSize(f) && forall block :: |block| == 16 ==> g(f(block)) == block
  }

  lemma {:induction false} UndoesAt(g: bytes -> bytes, f: bytes -> bytes, block: bytes)
    requires Undoes(g, f) && |block| == 16
    ensures |f(block)| == 16 && g(f(block)) == block
  {
  }

  lemma {:induction false} NoBlocks(f: bytes -> bytes)
    ensures EachBlock(f, []) == []
  {
  }

  lemma {:induction false} EachBlockAppend(f: bytes -> bytes, front: bytes, block: bytes)
    requires Aligned(front) && |block| == 16
    ensures EachBlock(f, front + block) == EachBlock(f, front) + f(block)
  {
    var all := front + block;
    assert all[..|all| - 16] == front && all[|all| - 16..] == block;
  }

  lemma {:induction false} EachBlockInverse(f: bytes -> bytes, g: bytes -> bytes, data: bytes)
    requires Aligned(data) && Undoes(g, f)
    ensures Aligned(EachBlock(f, data)) && EachBlock(g, EachBlock(f, data)) == data
  {
    hide EachBlock, Undoes;
    if data == [] {
      NoBlocks(f);
      NoBlocks(g);
    } else {
      var front, block := data[..|data| - 16], data[|data| - 16..];
      assert data == front + block;
      EachBlockInverse(f, g, front);
      UndoesAt(g, f, block);
      EachBlockAppend(f, front, block);
      EachBlockAppend(g, EachBlock(f, front), f(block));
    }
  }

  lemma {:induction false} EachBlockNext(f: bytes -> bytes, data: bytes, i: nat)
    requires i % 16 == 0 && i + 16 <= |data|
    ensures EachBlock(f, data[..i + 16]) == EachBlock(f, data[..i]) + f(data[i..i + 16])
  {
    assert data[..i + 16][..i] == data[..i] && data[..i + 16][i..] == data[i..i + 16];
  }

  /** Block b of the data. */
  function BlockOf(data: bytes, b: nat): (block: bytes)
    requires 16 * b + 16 <= |data|
    ensures |block| == 16
  {
    data[16 * b..16 * b + 16]
  }

  /** Block b of the result is the image of block b. */
  lemma {:induction false} BlockByBlock(f: bytes -> bytes, data: bytes)
    requires Aligned(data) && KeepsSize(f)
    ensures |EachBlock(f, data)| == |data|
    ensures forall b: nat :: 16 * b + 16 <= |data| ==> BlockOf(EachBlock(f, data), b) == f(BlockOf(data, b))
  {
    hide EachBlock;
    if data == [] {
      NoBlocks(f);
    } else {
      var front, block := data[..|data| - 16], data[|data| - 16..];
      assert data == front + block;
      assert |f(block)| == 16;
      BlockByBlock(f, front);
      EachBlockAppend(f, front, block);
      var out, n := EachBlock(f, data), |front|;
      forall b: nat | 16 * b + 16 <= |data| ensures BlockOf(out, b) == f(BlockOf(data, b)) {
        BlockOfAppend(front, block, b);
        BlockOfAppend(EachBlock(f, front), f(block), b);
      }
    }
  }

  lemma {:induction false} BlockOfAppend(front: bytes, block: bytes, b: nat)
    requires Aligned(front) && |block| == 16 && 16 * b + 16 <= |front| + 16
    ensures BlockOf(front + block, b) == if 16 * b == |front| then block else BlockOf(front, b)
  {
  }

  ghost function Encrypted(cipher: Cipher, key: bytes, plaintext: bytes): Result<bytes> {
    if |key| != 16 then WrongKeyLength
    else
      ToBlockSizeIsLeast(plaintext, 16);
      Ok(EachBlock(block => cipher.encrypt(key, block), ToBlockSize(plaintext, 16)))
  }

  ghost function Decrypted(cipher: Cipher, key: bytes, ciphertext: bytes): Result<bytes> {
    if |key| != 16 then WrongKeyLength
    else if !Aligned(ciphertext) then NotBlockAligned
    else Ok(EachBlock(block => cipher.decrypt(key, block), ciphertext))
  }

  method WriteBlock(destination: array<byte>, at: nat, block: bytes)
    requires |block| == 16 && at + 16 <= destination.Length
    modifies destination
    ensures destination[..at + 16] == old(destination[..at]) + block
  {
    for j := 0 to 16
      invariant destination[..at] == old(destination[..at])
      invariant forall k :: 0 <= k < j ==> destination[at + k] == block[k]
    {
      destination[at + j] := block[j];
    }
    assert destination[..at + 16] == destination[..at] + destination[at..at + 16];
    assert destination[at..at + 16] == block;
  }

  /** One block of the source is turned into the same block of the destination, block after block. */
  method TransformBlocks(f: bytes -> bytes, source: bytes) returns (out: bytes)
    requires Aligned(source) && KeepsSize(f)
    ensures out == EachBlock(f, source)
  {
    hide EachBlock;
    var destination := new byte[|source|](i => 0);
    var i := 0;
    assert source[..0] == [] && EachBlock(f, []) == [] by { NoBlocks(f); }
    while i < |source|
      invariant 0 <= i <= |source| && i % 16 == 0
      invariant destination[..i] == EachBlock(f, source[..i])
    {
      var block := f(source[i..i + 16]);
      WriteBlock(destination, i, block);
      EachBlockNext(f, source, i);
      i := i + 16;
    }
    assert source[..|source|] == source;
    return destination[..];
  }

  method EncryptECB(cipher: Cipher, plaintext: bytes, key: bytes) returns (r: Result<bytes>)
    requires cipher.Bijective()
    ensures r == Encrypted(cipher, key, plaintext)
    ensures |key| != 16 <==> r == WrongKeyLength
    ensures |key| == 16 ==>
              && r.Ok? && |r.value| == |ToBlockSize(plaintext, 16)|
              && forall b: nat :: 16 * b + 16 <= |r.value| ==>
                   BlockOf(r.value, b) == cipher.encrypt(key, BlockOf(ToBlockSize(plaintext, 16), b))
  {
    if |key| != 16 {
      return WrongKeyLength;
    }
    var padded := PadToBlockSize(plaintext, AES_BLOCK_SIZE);
    ToBlockSizeIsLeast(plaintext, 16);
    var encrypted := TransformBlocks(block => cipher.encrypt(key, block), padded);
    BlockByBlock(block => cipher.encrypt(key, block), padded);
    return Ok(encrypted);
  }

  method DecryptECBRaw(cipher: Cipher, ciphertext: bytes, key: bytes) returns (r: Result<bytes>)
    requires cipher.Bijective()
    ensures r == Decrypted(cipher, key, ciphertext)
    ensures |key| != 16 <==> r == WrongKeyLength
    ensures |key| == 16 && |ciphertext| % 16 != 0 <==> r == NotBlockAligned
    ensures |key| == 16 && |ciphertext| % 16 == 0 ==>
              && r.Ok? && |r.value| == |ciphertext|
              && forall b: nat :: 16 * b + 16 <= |r.value| ==>
                   BlockOf(r.value, b) == cipher.decrypt(key, BlockOf(ciphertext, b))
  {
    if |key| != 16 {
      return WrongKeyLength;
    }
    if |ciphertext| == 0 {
      NoBlocks(block => cipher.decrypt(key, block));
      return Ok(ciphertext);
    }
    if |ciphertext| % AES_BLOCK_SIZE != 0 {
      return NotBlockAligned;
    }
    var decrypted := TransformBlocks(block => cipher.decrypt(key, block), ciphertext);
    BlockByBlock(block => cipher.decrypt(key, block), ciphertext);
    return Ok(decrypted);
  }

  /** ECB round trip: under any 16-byte key, decrypting what was encrypted gives the data back, extended to
      whole blocks; data that fills its blocks comes back unchanged. */
  lemma {:induction false} EcbRoundTrip(cipher: Cipher, key: bytes, data: bytes)
    requires cipher.Bijective() && |key| == 16
    ensures var c := Encrypted(cipher, key, data);
            c.Ok? && Decrypted(cipher, key, c.value) == Ok(ToBlockSize(data, 16))
    ensures ToBlockSize(data, 16) == data <==> Aligned(data)
  {
    ToBlockSizeIsLeast(data, 16);
    EachBlockInverse(block => cipher.encrypt(key, block), block => cipher.decrypt(key, block), ToBlockSize(data, 16));
  }

  /** The other way round: every aligned ciphertext is the encryption of what it decrypts to. */
  lemma {:induction false} EcbOnto(cipher: Cipher, key: bytes, ciphertext: bytes)
    requires cipher.Bijective() && |key| == 16 && Aligned(ciphertext)
    ensures var d := Decrypted(cipher, key, ciphertext);
            d.Ok? && Encrypted(cipher, key, d.value) == Ok(ciphertext)
  {
    EachBlockInverse(block => cipher.decrypt(key, block), block => cipher.encrypt(key, block), ciphertext);
  }

  /** A command payload: whether it goes out encrypted, and its bytes. */
  method EncryptP2PPayload(cipher: Cipher, cmdEncrypted: bool, encryptionType: int, key: bytes, data: bytes)
    returns (encrypted: bool, payload: Result<bytes>)
    requires cipher.Bijective()
    ensures encrypted <==> cmdEncrypted && encryptionType != 0 && |key| == 16
    ensures payload.Ok?
    ensures encrypted ==> Decrypted(cipher, key, payload.value) == Ok(ToBlockSize(data, 16))
    ensures !encrypted ==> payload.value == data
  {
    if !cmdEncrypted || encryptionType == 0 || |key| != 16 {
      return false, Ok(data);
    }
    var padded := PadToBlockSize(data, AES_BLOCK_SIZE);
    payload := EncryptECB(cipher, padded, key);
    encrypted := true;
    ToBlockSizeIsLeast(data, 16);
    EcbRoundTrip(cipher, key, padded);
  }
}
