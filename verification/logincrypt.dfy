/**
 * The per-connection frame cipher of a login client (util/crypt/LoginCrypt.java).
 * The first frame the server sends is hidden by the XOR chain and the static
 * Blowfish key; every later frame, and every frame the client sends, is
 * checksummed and enciphered with the client's own key.
 */
module LoginCrypto {
  import opened Wire
  import opened Crypt

  /** The static key every client knows in advance. */
  const STATIC_BLOWFISH_KEY: seq<u8> := [
    0x6b, 0x60, 0xcb, 0x5b, 0x82, 0xce, 0x90, 0xb1,
    0xcc, 0x2b, 0x6c, 0x55, 0x6c, 0x6c, 0x6c, 0x6c
  ]

  /** The three `IOException`s the class throws. */
  datatype CryptError = SizeNotMultipleOf8 | ArrayTooShort | PacketTooLong

  /** A return value, or the exception thrown instead. */
  datatype Outcome<T> = Done(value: T) | Thrown(error: CryptError)

  /**
   * The frame size `encrypt` pads to: 4 bytes of checksum are reserved, 4
   * more for the XOR key on the static path, and then the size is raised to
   * the next multiple of 8, by a full block when it is already aligned.
   */
  function PaddedSize(size: nat, isStatic: bool): (n: int)
    ensures var s := size + (if isStatic then 8 else 4);
      n % 8 == 0 && s < n <= s + 8 && (s % 8 == 0 ==> n == s + 8)
  {
    var s := size + 4;
    var s' := if isStatic then s + 4 else s;
    s' + (8 - s' % 8)
  }

  /** The bytes of the first frame: the XOR chain, then ECB under the static key. */
  function StaticFrame(blowfish: BlockCipher, s: seq<u8>, offset: nat, n: int, seed: int): (r: seq<u8>)
    requires n >= 16 && n % 8 == 0 && offset + n <= |s| && IsInt32(seed)
    ensures |r| == |s|
  {
    XorPassFits(offset, n);
    Ecb(blowfish.encrypt, STATIC_BLOWFISH_KEY, XorPass(s, offset + 4, n - 8, seed % TWO32), offset, offset + n)
  }

  /** The bytes of every later frame: the checksum appended, then ECB under the client's key. */
  function DynamicFrame(c: BlockCipher, key: seq<u8>, s: seq<u8>, offset: nat, n: int): (r: seq<u8>)
    requires n >= 8 && n % 8 == 0 && offset + n <= |s|
    ensures |r| == |s|
  {
    BlocksAreWords(n);
    ChecksumFitsFrame(offset, n, |s|);
    LoopEndAligned(offset, offset + n, 8);
    Ecb(c.encrypt, key, WithChecksum(s, offset, n), offset, offset + n)
  }

  /** The XOR chain over a padded static frame stays inside the frame. */
  lemma XorPassFits(offset: nat, n: int)
    requires n >= 16 && n % 8 == 0
    ensures LoopEnd(offset + 4, n - 8, 4) + 4 <= offset + n
  {
  }

  /**
   * The client deciphers a checksummed frame with the same key and accepts
   * its checksum: decryption restores the plain frame with its checksum word.
   */
  lemma DynamicRoundTrip(c: BlockCipher, key: seq<u8>, s: seq<u8>, offset: nat, n: int)
    requires Inverse(c) && n >= 8 && n % 8 == 0 && offset + n <= |s|
    ensures LoopEnd(offset, offset + n, 8) == offset + n && ChecksumFits(offset, n, |s|)
    ensures Ecb(c.decrypt, key, DynamicFrame(c, key, s, offset, n), offset, offset + n) == WithChecksum(s, offset, n)
    ensures ChecksumOk(WithChecksum(s, offset, n), offset, n)
  {
    DynamicFrameFits(s, offset, n);
    EcbRoundTrip(c, key, WithChecksum(s, offset, n), offset, offset + n);
    ChecksumRoundTrip(s, offset, n);
  }

  /** The checksum word and the blocks of a dynamic frame lie inside the frame. */
  lemma DynamicFrameFits(s: seq<u8>, offset: nat, n: int)
    requires n >= 8 && n % 8 == 0 && offset + n <= |s|
    ensures n % 4 == 0 && ChecksumFits(offset, n, |s|)
    ensures LoopEnd(offset, offset + n, 8) == offset + n
  {
    BlocksAreWords(n);
    ChecksumFitsFrame(offset, n, |s|);
    LoopEndAligned(offset, offset + n, 8);
  }

  /**
   * At offset 0 a checksummed frame keeps the `size` payload bytes in
   * place: the checksum word lies after them, inside the padding.
   */
  lemma DynamicKeepsPayload(s: seq<u8>, size: nat)
    requires PaddedSize(size, false) <= |s|
    ensures ChecksumFits(0, PaddedSize(size, false), |s|)
    ensures WithChecksum(s, 0, PaddedSize(size, false))[..size] == s[..size]
  {
    var n := PaddedSize(size, false);
    BlocksAreWords(n);
    ChecksumFitsFrame(0, n, |s|);
    AppendTouchesLastWord(s, n);
    assert WithChecksum(s, 0, n)[..size] == WithChecksum(s, 0, n)[..n - 4][..size];
  }

  /**
   * A `LoginCrypt`: the shared static cipher, the client's dynamic cipher
   * (`null` until `setKey`), and the flag that selects the static path for
   * the first frame only. `blowfish` is the block cipher both use.
   */
  class LoginCrypt {
    const blowfish: BlockCipher
    const staticCrypt: NewCrypt
    var crypt: NewCrypt?
    var isStatic: bool

    /** Both ciphers run the same block cipher; the static one under the static key. */
    ghost predicate Valid()
      reads this
    {
      staticCrypt.cipher == blowfish && staticCrypt.key == STATIC_BLOWFISH_KEY
      && (crypt != null ==> crypt.cipher == blowfish)
    }

    constructor (blowfish: BlockCipher)
      ensures Valid() && this.blowfish == blowfish
      ensures crypt == null && isStatic
    {
      this.blowfish := blowfish;
      staticCrypt := new NewCrypt(blowfish, STATIC_BLOWFISH_KEY);
      crypt := null;
      isStatic := true;
    }

    /** `setKey(key)`: a fresh dynamic cipher under `key`; the static flag is kept. */
    method SetKey(key: seq<u8>)
      requires Valid()
      modifies this
      ensures Valid()
      ensures crypt != null && fresh(crypt) && crypt.key == key
      ensures isStatic == old(isStatic)
    {
      crypt := new NewCrypt(blowfish, key);
    }

    /**
     * `decrypt(raw, offset, size)`: the two size checks, then the dynamic
     * cipher over the frame and the checksum test. The static cipher is never
     * used for incoming frames.
     */
    method Decrypt(raw: array<u8>, offset: nat, size: int) returns (r: Outcome<bool>)
      requires crypt != null && offset <= raw.Length
      modifies raw
      ensures size % 8 != 0 ==> r == Thrown(SizeNotMultipleOf8) && raw[..] == old(raw[..])
      ensures size % 8 == 0 && offset + size > raw.Length ==> r == Thrown(ArrayTooShort) && raw[..] == old(raw[..])
      ensures size % 8 == 0 && offset + size <= raw.Length ==>
        && LoopEnd(offset, offset + size, 8) <= raw.Length
        && raw[..] == Ecb(crypt.cipher.decrypt, crypt.key, old(raw[..]), offset, offset + size)
        && (size > 4 ==> ChecksumFits(offset, size, raw.Length))
        && r == Done(ChecksumOk(raw[..], offset, size))
    {
      if size % 8 != 0 {
        return Thrown(SizeNotMultipleOf8);
      }
      if offset + size > raw.Length {
        return Thrown(ArrayTooShort);
      }
      if size > 0 {
        BlocksAreWords(size);
        LoopEndAligned(offset, offset + size, 8);
        ChecksumFitsFrame(offset, size, raw.Length);
      }
      crypt.Decrypt(raw, offset, size);
      var ok := VerifyChecksum(raw, offset, size);
      return Done(ok);
    }

    /**
     * `encrypt(raw, offset, size)` with `seed` standing for `Rnd.nextInt()`:
     * the padded size, the "packet too long" check, and then the static path
     * (XOR chain, static key, flag cleared) the first time and the dynamic
     * path (checksum, client key) after that.
     */
    method Encrypt(raw: array<u8>, offset: nat, size: nat, seed: int) returns (r: Outcome<int>)
      requires Valid() && IsInt32(seed) && (!isStatic ==> crypt != null)
      modifies this, raw
      ensures Valid() && crypt == old(crypt)
      ensures var n := PaddedSize(size, old(isStatic));
        if offset + n > raw.Length then
          r == Thrown(PacketTooLong) && raw[..] == old(raw[..]) && isStatic == old(isStatic)
        else
          && r == Done(n) && !isStatic
          && if old(isStatic) then raw[..] == StaticFrame(blowfish, old(raw[..]), offset, n, seed)
             else raw[..] == DynamicFrame(blowfish, crypt.key, old(raw[..]), offset, n)
    {
      var n := PaddedSize(size, isStatic);
      if offset + n > raw.Length {
        return Thrown(PacketTooLong);
      }
      LoopEndAligned(offset, offset + n, 8);
      if isStatic {
        SealStatic(staticCrypt, raw, offset, n, seed);
        isStatic := false;
      } else {
        SealDynamic(crypt, raw, offset, n);
      }
      return Done(n);
    }
  }

  /** The static path of `encrypt`: `encXORPass` with the seed, then `crypt` under the static key. */
  method SealStatic(staticCrypt: NewCrypt, raw: array<u8>, offset: nat, n: int, seed: int)
    requires n >= 16 && n % 8 == 0 && offset + n <= raw.Length && IsInt32(seed)
    requires staticCrypt.key == STATIC_BLOWFISH_KEY
    modifies raw
    ensures raw[..] == StaticFrame(staticCrypt.cipher, old(raw[..]), offset, n, seed)
  {
    XorPassFits(offset, n);
    LoopEndAligned(offset, offset + n, 8);
    ghost var s := raw[..];
    EncXorPass(raw, offset, n, seed);
    ghost var w := raw[..];
    assert w == XorPass(s, offset + 4, n - 8, seed % TWO32);
    staticCrypt.Crypt(raw, offset, n);
  }

  /** The dynamic path of `encrypt`: `appendChecksum`, then `crypt` under the client's key. */
  method SealDynamic(crypt: NewCrypt, raw: array<u8>, offset: nat, n: int)
    requires n >= 8 && n % 8 == 0 && offset + n <= raw.Length
    modifies raw
    ensures raw[..] == DynamicFrame(crypt.cipher, crypt.key, old(raw[..]), offset, n)
  {
    BlocksAreWords(n);
    ChecksumFitsFrame(offset, n, raw.Length);
    LoopEndAligned(offset, offset + n, 8);
    ghost var s := raw[..];
    AppendChecksum(raw, offset, n);
    ghost var w := raw[..];
    assert w == WithChecksum(s, offset, n);
    crypt.Crypt(raw, offset, n);
  }
}
