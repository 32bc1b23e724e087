/** Cipher block chaining over an abstract block cipher, section 6.2 of
    NIST SP 800-38A, with the chain carried from call to call. */
module Cipher {
  import opened Wrappers
  import opened Bytes

  const BLOCK_SIZE: nat := 16

  type Block = b: seq<byte> | |b| == BLOCK_SIZE witness Zeros(BLOCK_SIZE)

  /** AES under one fixed key. */
  datatype BlockCipher = BlockCipher(enc: Block -> Block, dec: Block -> Block)

  ghost predicate Inverts(c: BlockCipher) {
    forall b: Block :: c.dec(c.enc(b)) == b
  }

  predicate Aligned(s: seq<byte>) {
    |s| % BLOCK_SIZE == 0
  }

  function CbcEncrypt(c: BlockCipher, iv: Block, plain: seq<byte>): (r: seq<byte>)
    requires Aligned(plain)
    ensures |r| == |plain|
    decreases |plain|
  {
    if plain == [] then []
    else
      var first := c.enc(XorBytes(plain[..16], iv));
      first + CbcEncrypt(c, first, plain[16..])
  }

  function CbcDecrypt(c: BlockCipher, iv: Block, secret: seq<byte>): (r: seq<byte>)
    requires Aligned(secret)
    ensures |r| == |secret|
    decreases |secret|
  {
    if secret == [] then []
    else XorBytes(c.dec(secret[..16]), iv) + CbcDecrypt(c, secret[..16], secret[16..])
  }

  // The chaining value left behind after a ciphertext: its last block.
  function Chain(iv: Block, secret: seq<byte>): Block
    requires Aligned(secret)
  {
    if secret == [] then iv else secret[|secret| - 16..]
  }

  lemma ChainAppend(iv: Block, a: seq<byte>, b: seq<byte>)
    requires Aligned(a) && Aligned(b)
    ensures Aligned(a + b) && Chain(iv, a + b) == Chain(Chain(iv, a), b)
  {
    if b == [] {
      assert a + b == a;
    } else {
      assert (a + b)[|a + b| - 16..] == b[|b| - 16..];
    }
  }

  lemma ChainOfTail(iv: Block, secret: seq<byte>)
    requires Aligned(secret) && secret != []
    ensures Chain(secret[..16], secret[16..]) == Chain(iv, secret)
  {
    ChainAppend(iv, secret[..16], secret[16..]);
    assert secret[..16] + secret[16..] == secret;
  }

  // Encrypting in several calls is encrypting once.
  lemma {:induction false} EncryptAppend(c: BlockCipher, iv: Block, p: seq<byte>, q: seq<byte>)
    requires Aligned(p) && Aligned(q)
    ensures Aligned(p + q)
    ensures CbcEncrypt(c, iv, p + q) == CbcEncrypt(c, iv, p) + CbcEncrypt(c, Chain(iv, CbcEncrypt(c, iv, p)), q)
    decreases |p|
  {
    if p == [] {
      assert p + q == q;
    } else {
      TakeDropAppend(p, q, 16);
      var first: Block := c.enc(XorBytes(p[..16], iv));
      var rest := CbcEncrypt(c, first, p[16..]);
      EncryptAppend(c, first, p[16..], q);
      FirstThenRest(iv, first, rest);
      Associative(first, rest, CbcEncrypt(c, Chain(first, rest), q));
    }
  }

  lemma FirstThenRest(iv: Block, first: Block, rest: seq<byte>)
    requires Aligned(rest)
    ensures Aligned(first + rest) && Chain(iv, first + rest) == Chain(first, rest)
  {
    assert first[0..] == first;
    ChainAppend(iv, first, rest);
  }

  // Decrypting in several calls is decrypting once.
  lemma {:induction false} DecryptAppend(c: BlockCipher, iv: Block, x: seq<byte>, y: seq<byte>)
    requires Aligned(x) && Aligned(y)
    ensures Aligned(x + y)
    ensures CbcDecrypt(c, iv, x + y) == CbcDecrypt(c, iv, x) + CbcDecrypt(c, Chain(iv, x), y)
    decreases |x|
  {
    if x == [] {
      assert x + y == y;
    } else {
      TakeDropAppend(x, y, 16);
      DecryptAppend(c, x[..16], x[16..], y);
      ChainOfTail(iv, x);
      Associative(XorBytes(c.dec(x[..16]), iv), CbcDecrypt(c, x[..16], x[16..]), CbcDecrypt(c, Chain(iv, x), y));
    }
  }

  lemma {:induction false} DecryptInverts(c: BlockCipher, iv: Block, plain: seq<byte>)
    requires Inverts(c) && Aligned(plain)
    ensures CbcDecrypt(c, iv, CbcEncrypt(c, iv, plain)) == plain
    decreases |plain|
  {
    if plain == [] {
    } else {
      var mixed: Block := XorBytes(plain[..16], iv);
      var first: Block := c.enc(mixed);
      var secret := CbcEncrypt(c, iv, plain);
      assert secret[..16] == first && secret[16..] == CbcEncrypt(c, first, plain[16..]);
      DecryptInverts(c, first, plain[16..]);
      XorCancel(plain[..16], iv);
      assert c.dec(first) == mixed;
      assert plain == plain[..16] + plain[16..];
    }
  }

  // A receiver that decrypts piece by piece, as readPacket does.
  function DecryptPieces(c: BlockCipher, iv: Block, pieces: seq<seq<byte>>): seq<byte>
    requires forall i :: 0 <= i < |pieces| ==> Aligned(pieces[i])
    decreases |pieces|
  {
    if pieces == [] then []
    else CbcDecrypt(c, iv, pieces[0]) + DecryptPieces(c, Chain(iv, pieces[0]), pieces[1..])
  }

  // Any split of a ciphertext into block-aligned pieces decrypts to the same
  // plaintext as the whole.
  lemma {:induction false} AnySplitDecrypts(c: BlockCipher, iv: Block, pieces: seq<seq<byte>>)
    requires forall i :: 0 <= i < |pieces| ==> Aligned(pieces[i])
    ensures Aligned(Flatten(pieces))
    ensures DecryptPieces(c, iv, pieces) == CbcDecrypt(c, iv, Flatten(pieces))
    decreases |pieces|
  {
    if pieces == [] {
    } else {
      AnySplitDecrypts(c, Chain(iv, pieces[0]), pieces[1..]);
      DecryptAppend(c, iv, pieces[0], Flatten(pieces[1..]));
    }
  }

  // ---- The primer block ----------------------------------------------------

  lemma {:induction false} CbcDecryptTail(c: BlockCipher, iv1: Block, iv2: Block, secret: seq<byte>)
    requires Aligned(secret) && secret != []
    ensures CbcDecrypt(c, iv1, secret)[16..] == CbcDecrypt(c, iv2, secret)[16..]
    ensures CbcDecrypt(c, iv1, secret)[..16] == XorBytes(c.dec(secret[..16]), iv1)
  {
  }

  // Whatever the two ends start from, everything after one primer block
  // decrypts exactly; the primer itself does only if the ends agreed already.
  lemma PrimerSynchronises(c: BlockCipher, sender: Block, receiver: Block, primer: Block, later: seq<byte>)
    requires Inverts(c) && Aligned(later)
    ensures Aligned(primer + later)
    ensures var got := CbcDecrypt(c, receiver, CbcEncrypt(c, sender, primer + later));
      && got[16..] == later
      && (got[..16] == primer <==> sender == receiver)
    ensures Chain(receiver, CbcEncrypt(c, sender, primer + later)) == Chain(sender, CbcEncrypt(c, sender, primer + later))
  {
    var secret := CbcEncrypt(c, sender, primer + later);
    CbcDecryptTail(c, receiver, sender, secret);
    CbcDecryptTail(c, sender, receiver, secret);
    DecryptInverts(c, sender, primer + later);
    if CbcDecrypt(c, receiver, secret)[..16] == primer {
      var inner: Block := c.dec(secret[..16]);
      assert XorBytes(inner, receiver) == XorBytes(inner, sender);
      XorInjective(inner, receiver, sender);
    }
  }

  lemma XorInjective(a: seq<byte>, x: seq<byte>, y: seq<byte>)
    requires |a| == |x| == |y| && XorBytes(a, x) == XorBytes(a, y)
    ensures x == y
  {
    XorCancel(a, x);
    XorCancel(a, y);
    XorCancel(x, a);
    XorCancel(y, a);
  }

  // ---- Block by block ------------------------------------------------------

  function BlockAt(s: seq<byte>, k: nat): Block
    requires 16 * k + 16 <= |s|
  {
    s[16 * k..16 * k + 16]
  }

  // The block chained in: the ciphertext block before, or the starting value.
  function ChainedAt(iv: Block, secret: seq<byte>, k: nat): Block
    requires 16 * k <= |secret|
  {
    if k == 0 then iv else BlockAt(secret, k - 1)
  }

  // Each bit of r is set exactly when it is set in one of a and b.
  ghost predicate IsXor(r: Block, a: Block, b: Block) {
    forall j, i :: 0 <= j < 16 && 0 <= i < 8 ==> Bit(r[j], i) == (Bit(a[j], i) + Bit(b[j], i)) % 2
  }

  lemma XorBytesIsXor(a: Block, b: Block)
    ensures IsXor(XorBytes(a, b), a, b)
  {
    forall j, i | 0 <= j < 16 && 0 <= i < 8
      ensures Bit(XorBytes(a, b)[j], i) == (Bit(a[j], i) + Bit(b[j], i)) % 2
    {
      XorBits(a[j], b[j], i);
    }
  }

  lemma BlockOfTail(s: seq<byte>, k: nat)
    requires k > 0 && 16 * k + 16 <= |s|
    ensures BlockAt(s, k) == BlockAt(s[16..], k - 1)
  {
  }

  lemma ChainedOfTail(iv: Block, s: seq<byte>, k: nat)
    requires k > 0 && 16 * k <= |s|
    ensures ChainedAt(iv, s, k) == ChainedAt(BlockAt(s, 0), s[16..], k - 1)
  {
    if k > 1 {
      BlockOfTail(s, k - 1);
    }
  }

  // Every ciphertext block is the cipher applied to the plaintext block with the
  // block before mixed in, bit by bit.
  lemma {:induction false} EncryptsBlock(c: BlockCipher, iv: Block, plain: seq<byte>, k: nat) returns (mixed: Block)
    requires Aligned(plain) && 16 * k + 16 <= |plain|
    ensures var secret := CbcEncrypt(c, iv, plain);
      BlockAt(secret, k) == c.enc(mixed) && IsXor(mixed, BlockAt(plain, k), ChainedAt(iv, secret, k))
    decreases k
  {
    var first: Block := c.enc(XorBytes(plain[..16], iv));
    var secret := CbcEncrypt(c, iv, plain);
    assert secret[16..] == CbcEncrypt(c, first, plain[16..]) && BlockAt(secret, 0) == first;
    if k == 0 {
      mixed := XorBytes(plain[..16], iv);
      XorBytesIsXor(plain[..16], iv);
    } else {
      mixed := EncryptsBlock(c, first, plain[16..], k - 1);
      BlockOfTail(secret, k);
      BlockOfTail(plain, k);
      ChainedOfTail(iv, secret, k);
    }
  }

  // Every plaintext block is the deciphered block with the ciphertext block
  // before mixed in, bit by bit.
  lemma {:induction false} DecryptsBlock(c: BlockCipher, iv: Block, secret: seq<byte>, k: nat)
    requires Aligned(secret) && 16 * k + 16 <= |secret|
    ensures IsXor(BlockAt(CbcDecrypt(c, iv, secret), k), c.dec(BlockAt(secret, k)), ChainedAt(iv, secret, k))
    decreases k
  {
    var plain := CbcDecrypt(c, iv, secret);
    var first: Block := XorBytes(c.dec(secret[..16]), iv);
    assert plain[16..] == CbcDecrypt(c, secret[..16], secret[16..]) && BlockAt(plain, 0) == first;
    if k == 0 {
      XorBytesIsXor(c.dec(secret[..16]), iv);
    } else {
      DecryptsBlock(c, secret[..16], secret[16..], k - 1);
      BlockOfTail(secret, k);
      BlockOfTail(plain, k);
      ChainedOfTail(iv, secret, k);
    }
  }

  // ---- One block more ------------------------------------------------------

  lemma DropFurther(s: seq<byte>, i: nat)
    requires i + 16 <= |s|
    ensures s[i..][..16] == s[i..i + 16] && s[i..][16..] == s[i + 16..]
    ensures s[..i + 16] == s[..i] + s[i..i + 16]
  {
  }

  lemma EncryptsOneMore(c: BlockCipher, chain: Block, done: seq<byte>, rest: seq<byte>, block: Block)
    requires Aligned(rest) && rest != [] && Aligned(done) && block == c.enc(XorBytes(rest[..16], chain))
    ensures done + CbcEncrypt(c, chain, rest) == (done + block) + CbcEncrypt(c, block, rest[16..])
    ensures Aligned(done + block) && forall iv :: Chain(iv, done + block) == block
  {
    Associative(done, block, CbcEncrypt(c, block, rest[16..]));
    assert (done + block)[|done + block| - 16..] == block;
  }

  lemma DecryptsOneMore(c: BlockCipher, chain: Block, done: seq<byte>, rest: seq<byte>, block: Block)
    requires Aligned(rest) && rest != [] && block == XorBytes(c.dec(rest[..16]), chain)
    ensures done + CbcDecrypt(c, chain, rest) == (done + block) + CbcDecrypt(c, rest[..16], rest[16..])
  {
    Associative(done, block, CbcDecrypt(c, rest[..16], rest[16..]));
  }

  // Lays one block into a buffer.
  method StoreBlock(buf: array<byte>, at: nat, block: Block)
    requires at + 16 <= buf.Length
    modifies buf
    ensures buf[..at + 16] == old(buf[..at]) + block
    ensures buf[at + 16..] == old(buf[at + 16..])
  {
    forall k | 0 <= k < 16 {
      buf[at + k] := block[k];
    }
  }

  // ---- The stateful cipher -------------------------------------------------

  class StreamCipher {
    const cipher: BlockCipher
    var encChain: Block
    var decChain: Block

    constructor (cipher: BlockCipher, iv: Block)
      ensures this.cipher == cipher && encChain == iv && decChain == iv
    {
      this.cipher := cipher;
      encChain, decChain := iv, iv;
    }

    method Encrypt(plain: seq<byte>) returns (secret: seq<byte>)
      requires Aligned(plain)  // the Go method panics otherwise
      modifies this`encChain
      ensures secret == CbcEncrypt(cipher, old(encChain), plain)
      ensures encChain == Chain(old(encChain), secret)
    {
      ghost var iv := encChain;
      var buf := new byte[|plain|];
      var i := 0;
      while i < |plain|
        invariant 0 <= i <= |plain| && Aligned(plain[i..]) && Aligned(buf[..i])
        invariant CbcEncrypt(cipher, iv, plain) == buf[..i] + CbcEncrypt(cipher, encChain, plain[i..])
        invariant encChain == Chain(iv, buf[..i])
      {
        ghost var done := buf[..i];
        ghost var rest := plain[i..];
        var block := cipher.enc(XorBytes(plain[i..i + 16], encChain));
        StoreBlock(buf, i, block);
        DropFurther(plain, i);
        EncryptsOneMore(cipher, encChain, done, rest, block);
        encChain := block;
        i := i + 16;
      }
      secret := buf[..];
      assert secret == buf[..i] + [];
    }

    method Decrypt(secret: seq<byte>) returns (plain: Option<seq<byte>>)
      modifies this`decChain
      ensures plain.None? <==> secret == [] || !Aligned(secret)
      ensures plain.None? ==> decChain == old(decChain)
      ensures plain.Some? ==> plain.value == CbcDecrypt(cipher, old(decChain), secret)
                              && decChain == Chain(old(decChain), secret)
    {
      if |secret| % BLOCK_SIZE != 0 || |secret| == 0 {
        return None;
      }
      ghost var iv := decChain;
      var buf := new byte[|secret|];
      var i := 0;
      while i < |secret|
        invariant 0 <= i <= |secret| && Aligned(secret[i..]) && Aligned(secret[..i])
        invariant CbcDecrypt(cipher, iv, secret) == buf[..i] + CbcDecrypt(cipher, decChain, secret[i..])
        invariant decChain == Chain(iv, secret[..i])
      {
        ghost var done := buf[..i];
        var block: Block := XorBytes(cipher.dec(secret[i..i + 16]), decChain);
        StoreBlock(buf, i, block);
        DropFurther(secret, i);
        DecryptsOneMore(cipher, decChain, done, secret[i..], block);
        decChain := secret[i..i + 16];
        i := i + 16;
      }
      assert buf[..] == buf[..i] + [];
      assert secret[..i] == secret;
      plain := Some(buf[..]);
    }

    // The bytes SendRandomBlock writes for the random block it drew.
    method SendRandomBlock(drawn: Block) returns (wire: Block)
      modifies this`encChain
      ensures wire == CbcEncrypt(cipher, old(encChain), drawn) && encChain == wire
    {
      wire := Encrypt(drawn);
    }

    method ReceiveRandomBlock(wire: Block)
      modifies this`decChain
      ensures decChain == wire
    {
      var _ := Decrypt(wire);
    }
  }
}
