/**
 * The encryption envelope of `AESWrapper`: a fresh IV followed by the ciphertext of CBC mode (section
 * 6.2 of NIST SP 800-38A) over the padded plaintext (section 6.3 of RFC 5652). The block cipher itself
 * is a parameter; nothing is known of it but that `dec` undoes `enc` under the same key.
 */
module Aes {
  import opened Binary

  const BLOCK_SIZE: nat := 16
  const KEY_LEN: nat := 32

  type Block = b: Bytes | |b| == 16 witness Zeros(16)
  type Key = k: Bytes | |k| == 32 witness Zeros(32)

  datatype BlockCipher = BlockCipher(enc: (Key, Block) -> Block, dec: (Key, Block) -> Block) {
    ghost predicate Invertible() {
      forall k: Key, b: Block :: dec(k, enc(k, b)) == b
    }
  }

  datatype Decrypted = Plain(data: Bytes) | TooShort | InvalidCiphertext

  function XorByte(a: Byte, b: Byte): Byte {
    LeftByte(0);
    XorBound(a, b, 8);
    Xor(a, b)
  }

  function XorBlock(a: Block, b: Block): (x: Block)
    ensures forall i :: 0 <= i < 16 ==> x[i] == XorByte(a[i], b[i])
  {
    seq(16, i requires 0 <= i < 16 => XorByte(a[i], b[i]))
  }

  function Repeat(b: Byte, n: nat): (s: Bytes)
    ensures |s| == n && forall i :: 0 <= i < n ==> s[i] == b
  {
    seq(n, i => b)
  }

  function Pad(plain: Bytes): (padded: Bytes)
    ensures |padded| == 16 * (|plain| / 16 + 1) && |padded| % 16 == 0
  {
    var n := 16 - |plain| % 16;
    plain + Repeat(n, n)
  }

  function Unpad(padded: Bytes): Option<Bytes> {
    if padded == [] then None
    else
      var n := padded[|padded| - 1];
      if 1 <= n <= 16 && n <= |padded| && padded[|padded| - n..] == Repeat(n, n)
      then Some(padded[..|padded| - n])
      else None
  }

  function EncryptBlocks(c: BlockCipher, key: Key, prev: Block, data: Bytes): (cipher: Bytes)
    requires |data| % 16 == 0
    ensures |cipher| == |data|
    decreases |data|
  {
    if data == [] then []
    else
      var block: Bytes := c.enc(key, XorBlock(prev, data[..16]));
      block + EncryptBlocks(c, key, block, data[16..])
  }

  function DecryptBlocks(c: BlockCipher, key: Key, prev: Block, cipher: Bytes): (data: Bytes)
    requires |cipher| % 16 == 0
    ensures |data| == |cipher|
    decreases |cipher|
  {
    if cipher == [] then []
    else
      var block: Bytes := XorBlock(c.dec(key, cipher[..16]), prev);
      block + DecryptBlocks(c, key, cipher[..16], cipher[16..])
  }

  function Encrypt(c: BlockCipher, key: Key, iv: Block, plain: Bytes): (message: Bytes)
    ensures |message| == 16 + 16 * (|plain| / 16 + 1) && |message| % 16 == 0
  {
    var head: Bytes := iv;
    head + EncryptBlocks(c, key, iv, Pad(plain))
  }

  function Decrypt(c: BlockCipher, key: Key, message: Bytes): Decrypted {
    if |message| < 16 then TooShort
    else if |message| % 16 != 0 then InvalidCiphertext
    else match Unpad(DecryptBlocks(c, key, message[..16], message[16..]))
         case Some(plain) => Plain(plain)
         case None => InvalidCiphertext
  }

  lemma DecryptBlocksUnfold(c: BlockCipher, key: Key, prev: Block, cipher: Bytes)
    requires |cipher| % 16 == 0 && cipher != []
    ensures var block: Block := cipher[..16];
            var piece: Bytes := XorBlock(c.dec(key, block), prev);
            DecryptBlocks(c, key, prev, cipher) == piece + DecryptBlocks(c, key, block, cipher[16..])
  {
  }

  lemma DecryptBlocksOfNone(c: BlockCipher, key: Key, prev: Block, cipher: Bytes)
    requires cipher == []
    ensures DecryptBlocks(c, key, prev, cipher) == []
  {
  }

  class AesWrapper {
    const cipher: BlockCipher
    const key: array<Byte>

    ghost predicate Valid()
      reads key
    {
      key.Length == 32
    }

    ghost function KeyBytes(): Key
      requires Valid()
      reads key
    {
      key[..]
    }

    constructor (cipher: BlockCipher, bytes: Bytes)
      requires |bytes| == 32
      ensures Valid() && fresh(key) && KeyBytes() == bytes && this.cipher == cipher
    {
      this.cipher := cipher;
      key := new Byte[32](i requires 0 <= i < 32 => bytes[i]);
    }

    /** The keyed constructor; a key of any length but 32 is an error. */
    static method Make(cipher: BlockCipher, bytes: Bytes) returns (w: AesWrapper?)
      ensures w == null <==> |bytes| != 32
      ensures w != null ==> w.Valid() && fresh(w) && fresh(w.key) && w.KeyBytes() == bytes && w.cipher == cipher
    {
      if |bytes| != KEY_LEN {
        return null;
      }
      w := new AesWrapper(cipher, bytes);
    }

    /** The chained filter: every block is mixed with the previous ciphertext block. */
    method EncryptChain(iv: Block, data: Bytes) returns (out: Bytes)
      requires Valid() && |data| % 16 == 0
      ensures out == EncryptBlocks(cipher, KeyBytes(), iv, data)
    {
      hide XorBlock;
      var chain: Block := iv;
      out := [];
      var i := 0;
      assert data[0..] == data;
      while i < |data|
        invariant 0 <= i <= |data| && i % 16 == 0
        invariant out + EncryptBlocks(cipher, KeyBytes(), chain, data[i..])
               == EncryptBlocks(cipher, KeyBytes(), iv, data)
      {
        var rest := data[i..];
        assert rest[16..] == data[i + 16..];
        var block: Block := rest[..16];
        chain := cipher.enc(key[..], XorBlock(chain, block));
        ghost var tail := EncryptBlocks(cipher, KeyBytes(), chain, data[i + 16..]);
        assert out + (chain + tail) == (out + chain) + tail;
        out := out + chain;
        i := i + 16;
      }
    }

    method DecryptChain(iv: Block, body: Bytes) returns (out: Bytes)
      requires Valid() && |body| % 16 == 0
      ensures out == DecryptBlocks(cipher, KeyBytes(), iv, body)
    {
      hide XorBlock, DecryptBlocks;
      var chain: Block := iv;
      out := [];
      var i := 0;
      assert body[0..] == body;
      assert out + DecryptBlocks(cipher, KeyBytes(), iv, body) == DecryptBlocks(cipher, KeyBytes(), iv, body);
      while i < |body|
        invariant 0 <= i <= |body| && i % 16 == 0
        invariant out + DecryptBlocks(cipher, KeyBytes(), chain, body[i..])
               == DecryptBlocks(cipher, KeyBytes(), iv, body)
      {
        var rest := body[i..];
        assert rest[16..] == body[i + 16..];
        var block: Block := rest[..16];
        var piece: Bytes := XorBlock(cipher.dec(key[..], block), chain);
        ghost var tail := DecryptBlocks(cipher, KeyBytes(), block, body[i + 16..]);
        DecryptBlocksUnfold(cipher, KeyBytes(), chain, rest);
        assert out + (piece + tail) == (out + piece) + tail;
        out := out + piece;
        chain := block;
        i := i + 16;
      }
      DecryptBlocksOfNone(cipher, KeyBytes(), chain, body[i..]);
      assert out + [] == out;
    }

    method EncryptMessage(iv: Block, plain: Bytes) returns (message: Bytes)
      requires Valid()
      ensures message == Encrypt(cipher, KeyBytes(), iv, plain)
    {
      var out := EncryptChain(iv, Pad(plain));
      var head: Bytes := iv;
      message := head + out;
    }

    method DecryptMessage(message: Bytes) returns (r: Decrypted)
      requires Valid()
      ensures r == Decrypt(cipher, KeyBytes(), message)
    {
      if |message| < BLOCK_SIZE {
        return TooShort;
      }
      if |message| % 16 != 0 {
        return InvalidCiphertext;
      }
      var out := DecryptChain(message[..16], message[16..]);
      var plain := Unpad(out);
      r := if plain.Some? then Plain(plain.value) else InvalidCiphertext;
    }
  }

  lemma XorBlockCancels(a: Block, b: Block)
    ensures XorBlock(XorBlock(a, b), a) == b
  {
    var x := XorBlock(a, b);
    forall i | 0 <= i < 16 ensures XorBlock(x, a)[i] == b[i] {
      XorCommutes(a[i], b[i]);
      XorCancels(b[i], a[i]);
    }
  }

  lemma {:induction false} BlocksRoundTrip(c: BlockCipher, key: Key, prev: Block, data: Bytes)
    requires c.Invertible() && |data| % 16 == 0
    ensures DecryptBlocks(c, key, prev, EncryptBlocks(c, key, prev, data)) == data
    decreases |data|
  {
    if data != [] {
      var mixed := XorBlock(prev, data[..16]);
      var block: Bytes := c.enc(key, mixed);
      var rest: Bytes := EncryptBlocks(c, key, block, data[16..]);
      BlocksRoundTrip(c, key, block, data[16..]);
      assert (block + rest)[..16] == block && (block + rest)[16..] == rest;
      assert c.dec(key, block) == mixed;
      XorBlockCancels(prev, data[..16]);
      assert data == data[..16] + data[16..];
    }
  }

  lemma UnpadOfPad(plain: Bytes)
    ensures Unpad(Pad(plain)) == Some(plain)
  {
    var n := 16 - |plain| % 16;
    assert Pad(plain)[|plain|..] == Repeat(n, n);
    assert Pad(plain)[..|plain|] == plain;
  }

  /** Decryption gives the plaintext back, for every key, IV and length. */
  lemma DecryptOfEncrypt(c: BlockCipher, key: Key, iv: Block, plain: Bytes)
    requires c.Invertible()
    ensures Decrypt(c, key, Encrypt(c, key, iv, plain)) == Plain(plain)
  {
    var message := Encrypt(c, key, iv, plain);
    assert message[..16] == iv && message[16..] == EncryptBlocks(c, key, iv, Pad(plain));
    BlocksRoundTrip(c, key, iv, Pad(plain));
    UnpadOfPad(plain);
  }

  /** No two files have the same envelope, whatever IVs they were given. */
  lemma EncryptInjective(c: BlockCipher, key: Key, iv: Block, iv': Block, plain: Bytes, plain': Bytes)
    requires c.Invertible()
    requires Encrypt(c, key, iv, plain) == Encrypt(c, key, iv', plain')
    ensures iv == iv' && plain == plain'
  {
    DecryptOfEncrypt(c, key, iv, plain);
    DecryptOfEncrypt(c, key, iv', plain');
    assert Encrypt(c, key, iv, plain)[..16] == iv;
    assert Encrypt(c, key, iv', plain')[..16] == iv';
  }

  /** Block `j` of a sequence of whole blocks. */
  function BlockAt(data: Bytes, j: nat): Block
    requires 16 * j + 16 <= |data|
  {
    data[16 * j..16 * j + 16]
  }

  lemma BlockOfTail(head: Bytes, tail: Bytes, j: nat)
    requires |head| == 16 && 1 <= j && 16 * (j - 1) + 16 <= |tail|
    ensures BlockAt(head + tail, j) == BlockAt(tail, j - 1)
  {
  }

  /**
   * The defining equation of CBC mode: every ciphertext block is the cipher of the plaintext block mixed
   * with the ciphertext block before it, the first with the IV.
   */
  lemma {:induction false} CbcEquation(c: BlockCipher, key: Key, iv: Block, data: Bytes, j: nat)
    requires |data| % 16 == 0 && 16 * j + 16 <= |data|
    ensures var cipher := EncryptBlocks(c, key, iv, data);
            var before := if j == 0 then iv else BlockAt(cipher, j - 1);
            BlockAt(cipher, j) == c.enc(key, XorBlock(before, BlockAt(data, j)))
    decreases |data|
  {
    hide XorBlock;
    var cipher := EncryptBlocks(c, key, iv, data);
    var block: Bytes := c.enc(key, XorBlock(iv, data[..16]));
    var rest := EncryptBlocks(c, key, block, data[16..]);
    assert cipher == block + rest;
    if j == 0 {
      assert BlockAt(cipher, 0) == block && BlockAt(data, 0) == data[..16];
    } else {
      CbcEquation(c, key, block, data[16..], j - 1);
      BlockOfTail(block, rest, j);
      BlockOfTail(data[..16], data[16..], j);
      assert data == data[..16] + data[16..];
      if j == 1 {
        assert BlockAt(cipher, 0) == block;
      } else {
        BlockOfTail(block, rest, j - 1);
      }
    }
  }

  /** Of whole blocks, exactly the padded texts are unpadded, each to the text it was made of. */
  lemma UnpadExact(padded: Bytes, plain: Bytes)
    requires |padded| % 16 == 0
    ensures Unpad(padded) == Some(plain) <==> padded == Pad(plain)
  {
    UnpadOfPad(plain);
    if Unpad(padded) == Some(plain) {
      var n := padded[|padded| - 1];
      assert |plain| == |padded| - n && 16 - |plain| % 16 == n;
      assert padded == padded[..|padded| - n] + padded[|padded| - n..];
    }
  }

  /** Bit by bit, one block is the exclusive or of two others. */
  ghost predicate IsBitwiseXor(x: Block, a: Block, b: Block) {
    forall i, k: nat :: 0 <= i < 16 ==> Bit(x[i], k) == (Bit(a[i], k) + Bit(b[i], k)) % 2
  }

  lemma XorBlockIsBitwise(a: Block, b: Block)
    ensures IsBitwiseXor(XorBlock(a, b), a, b)
  {
    hide Bit, Xor;
    forall i, k: nat | 0 <= i < 16 ensures Bit(XorBlock(a, b)[i], k) == (Bit(a[i], k) + Bit(b[i], k)) % 2 {
      XorBit(a[i], b[i], k);
    }
  }

  /** The mixing of machine bytes is their exclusive or. */
  lemma XorByteIsBitwise(x: bv8, y: bv8)
    ensures XorByte(x as Byte, y as Byte) == (x ^ y) as Byte
  {
    hide Xor;
    XorIsBitwise(x, y);
  }

  /**
   * The envelope of a text: the IV, then for every block of the padded text the cipher of its exclusive or with
   * the block of the envelope before it.
   */
  lemma EnvelopeIsCbc(c: BlockCipher, key: Key, iv: Block, plain: Bytes, j: nat)
    requires 16 * j + 16 <= |Pad(plain)|
    ensures var message := Encrypt(c, key, iv, plain);
            && |message| == 16 + |Pad(plain)| && message[..16] == iv
            && exists mixed: Block ::
                 && IsBitwiseXor(mixed, BlockAt(message, j), BlockAt(Pad(plain), j))
                 && BlockAt(message, j + 1) == c.enc(key, mixed)
  {
    hide Pad, XorBlock, EncryptBlocks, IsBitwiseXor;
    var message, padded := Encrypt(c, key, iv, plain), Pad(plain);
    var cipher := EncryptBlocks(c, key, iv, padded);
    CbcEquation(c, key, iv, padded, j);
    assert message == iv + cipher;
    BlockOfTail(iv, cipher, j + 1);
    if j == 0 {
      assert BlockAt(message, 0) == iv;
    } else {
      BlockOfTail(iv, cipher, j);
    }
    XorBlockIsBitwise(BlockAt(message, j), BlockAt(padded, j));
  }

  /** The padding: as many bytes as are missing to the next whole block, 1 to 16, each saying how many they are. */
  lemma PadBytes(plain: Bytes)
    ensures var n := |Pad(plain)| - |plain|;
            && 1 <= n <= 16 && |Pad(plain)| % 16 == 0 && Pad(plain)[..|plain|] == plain
            && forall i :: |plain| <= i < |Pad(plain)| ==> Pad(plain)[i] == n
  {
  }

  /**
   * Decryption inverts the equation for any ciphertext: every block of the result is the exclusive or of the
   * deciphered block with the block before it.
   */
  lemma {:induction false} DecryptEquation(c: BlockCipher, key: Key, iv: Block, cipher: Bytes, j: nat)
    requires |cipher| % 16 == 0 && 16 * j + 16 <= |cipher|
    ensures var data := DecryptBlocks(c, key, iv, cipher);
            var before := if j == 0 then iv else BlockAt(cipher, j - 1);
            IsBitwiseXor(BlockAt(data, j), c.dec(key, BlockAt(cipher, j)), before)
    decreases |cipher|
  {
    hide XorBlock, IsBitwiseXor;
    var first: Block := cipher[..16];
    var piece: Bytes := XorBlock(c.dec(key, first), iv);
    var rest := DecryptBlocks(c, key, first, cipher[16..]);
    DecryptBlocksUnfold(c, key, iv, cipher);
    assert DecryptBlocks(c, key, iv, cipher) == piece + rest;
    if j == 0 {
      XorBlockIsBitwise(c.dec(key, first), iv);
      assert BlockAt(piece + rest, 0) == piece && BlockAt(cipher, 0) == first;
    } else {
      DecryptEquation(c, key, first, cipher[16..], j - 1);
      BlockOfTail(piece, rest, j);
      assert cipher == cipher[..16] + cipher[16..];
      BlockOfTail(cipher[..16], cipher[16..], j);
      if j > 1 {
        BlockOfTail(cipher[..16], cipher[16..], j - 1);
      } else {
        assert BlockAt(cipher, 0) == first;
      }
    }
  }

  /** Exactly which messages decrypt, and to what: an IV, and whole blocks that decrypt to a padded text. */
  lemma DecryptExactly(c: BlockCipher, key: Key, message: Bytes, plain: Bytes)
    ensures Decrypt(c, key, message) == TooShort <==> |message| < 16
    ensures Decrypt(c, key, message) == Plain(plain) <==>
            && |message| >= 16 && |message| % 16 == 0
            && DecryptBlocks(c, key, message[..16], message[16..]) == Pad(plain)
  {
    hide DecryptBlocks, Pad, Unpad;
    if |message| >= 16 && |message| % 16 == 0 {
      UnpadExact(DecryptBlocks(c, key, message[..16], message[16..]), plain);
    }
  }
}
