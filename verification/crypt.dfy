/**
 * Frame cryptography of the login server (util/crypt/NewCrypt.java and
 * util/crypt/LoginCrypt.java): the XOR-fold checksum, the XOR chain that
 * hides the first frame sent to a game client, the ECB stride loops over a
 * 64-bit block cipher, and the switch from the static to the per-client key.
 *
 * Every loop runs in place on an `array<u8>` and is specified by a function
 * of the array's contents; the lemmas state what those functions promise.
 */
module Crypt {
  import opened Wire

  /** One 64-bit cipher block. */
  type Block = b: seq<u8> | |b| == 8 witness [0, 0, 0, 0, 0, 0, 0, 0]

  /**
   * The block cipher NewCrypt drives (Blowfish in the server): encryption
   * and decryption of one block under a key. The cipher itself is not part
   * of this model; the lemmas hold for every pair of functions, and the
   * round trip for every pair that satisfies `Inverse`.
   */
  datatype BlockCipher = BlockCipher(encrypt: (seq<u8>, Block) -> Block, decrypt: (seq<u8>, Block) -> Block)

  ghost predicate Inverse(c: BlockCipher)
  {
    forall key, b :: c.decrypt(key, c.encrypt(key, b)) == b
  }

  /** Where `for (i = lo; i < bound; i += step)` leaves `i`. */
  function LoopEnd(lo: int, bound: int, step: int): (e: int)
    requires step == 4 || step == 8
    ensures lo >= bound ==> e == lo
    ensures lo < bound ==> bound <= e < bound + step
    ensures e >= lo && (e - lo) % step == 0
    decreases bound - lo
  {
    if lo >= bound then lo else LoopEnd(lo + step, bound, step)
  }

  /** A loop whose bound is reached exactly stops at the bound. */
  lemma LoopEndAligned(lo: int, hi: int, step: int)
    requires (step == 4 || step == 8) && lo <= hi && (hi - lo) % step == 0
    ensures LoopEnd(lo, hi, step) == hi
  {
  }

  /** A whole number of blocks is a whole number of words. */
  lemma BlocksAreWords(n: int)
    requires n % 8 == 0
    ensures n % 4 == 0
  {
    assert n == 4 * (2 * (n / 8));
  }

  /** A position aligned to a word stays aligned after one more word. */
  lemma AlignedStep(lo: int, p: int)
    requires (p - lo) % 4 == 0
    ensures (p + 4 - lo) % 4 == 0
  {
  }

  /** One more turn of the loop does not move where it stops. */
  lemma LoopEndStep(lo: int, bound: int, step: int)
    requires (step == 4 || step == 8) && lo < bound
    ensures LoopEnd(lo + step, bound, step) == LoopEnd(lo, bound, step)
  {
  }

  /** Every position the loop visits is at least one step before where it stops. */
  lemma LoopEndPast(lo: int, q: int, hi: int, step: int)
    requires (step == 4 || step == 8) && lo <= q < hi && (q - lo) % step == 0
    ensures q + step <= LoopEnd(lo, hi, step)
  {
  }

  // ================================================================ checksum

  /** XOR of the little-endian words at `lo`, `lo + 4`, ... below `hi`: the checksum the loop folds. */
  function XorWords(s: seq<u8>, lo: int, hi: int): (w: int)
    requires 0 <= lo <= hi <= |s| && (hi - lo) % 4 == 0
    ensures 0 <= w < TWO32
    decreases hi - lo
  {
    if hi == lo then 0 else Xor32(XorWords(s, lo, hi - 4), U32At(s, hi - 4))
  }

  /**
   * Java's bounds condition for the checksum loops: the word read after the
   * loop lies inside the array. The loop bound is `size - 4` whatever the
   * offset (NewCrypt.java:74, :114).
   */
  predicate ChecksumFits(offset: int, size: int, length: int)
  {
    0 <= offset && LoopEnd(offset, size - 4, 4) + 4 <= length
  }

  /** What `verifyChecksum(raw, offset, size)` returns. */
  function ChecksumOk(s: seq<u8>, offset: int, size: int): bool
    requires 0 <= offset
    requires size % 4 == 0 && size > 4 ==> ChecksumFits(offset, size, |s|)
  {
    if size % 4 != 0 || size <= 4 then false
    else
      var e := LoopEnd(offset, size - 4, 4);
      U32At(s, e) == XorWords(s, offset, e)
  }

  /** The array after `appendChecksum(raw, offset, size)`. */
  function WithChecksum(s: seq<u8>, offset: int, size: int): (r: seq<u8>)
    requires ChecksumFits(offset, size, |s|)
    ensures |r| == |s|
  {
    var e := LoopEnd(offset, size - 4, 4);
    Put(s, e, LE32(XorWords(s, offset, e)))
  }

  /** A frame inside the array whose size is a multiple of 4 meets the bounds condition. */
  lemma ChecksumFitsFrame(offset: int, size: int, length: int)
    requires 0 <= offset && size % 4 == 0 && size > 4 && offset + size <= length
    ensures ChecksumFits(offset, size, length)
  {
  }

  /** `s` and `t` hold the same bytes at positions `lo` to `hi - 1`. */
  predicate Agree(s: seq<u8>, t: seq<u8>, lo: int, hi: int)
    requires 0 <= lo && hi <= |s| && hi <= |t|
  {
    forall k :: lo <= k < hi ==> s[k] == t[k]
  }

  /** The checksum of a range depends only on the bytes of that range. */
  lemma {:induction false} XorWordsFrame(s: seq<u8>, t: seq<u8>, lo: int, hi: int)
    requires 0 <= lo <= hi <= |s| && hi <= |t| && (hi - lo) % 4 == 0
    requires Agree(s, t, lo, hi)
    ensures XorWords(s, lo, hi) == XorWords(t, lo, hi)
    decreases hi - lo
  {
    if hi != lo {
      XorWordsFrame(s, t, lo, hi - 4);
      assert U32At(s, hi - 4) == U32At(t, hi - 4);
    }
  }

  /** At offset 0 the check compares the last word of the frame with the XOR of all words before it. */
  lemma ChecksumAtZero(s: seq<u8>, size: int)
    requires size % 4 == 0 && size > 4 && size <= |s|
    ensures ChecksumOk(s, 0, size) <==> U32At(s, size - 4) == XorWords(s, 0, size - 4)
  {
  }

  /** At offset 0, `appendChecksum` writes the last word of the frame and nothing else. */
  lemma AppendTouchesLastWord(s: seq<u8>, size: int)
    requires size % 4 == 0 && size > 4 && size <= |s|
    ensures WithChecksum(s, 0, size)[..size - 4] == s[..size - 4]
    ensures WithChecksum(s, 0, size)[size..] == s[size..]
  {
  }

  /** `verifyChecksum` accepts what `appendChecksum` produced, at any offset the loops allow. */
  lemma ChecksumRoundTrip(s: seq<u8>, offset: int, size: int)
    requires size % 4 == 0 && size > 4 && ChecksumFits(offset, size, |s|)
    ensures ChecksumOk(WithChecksum(s, offset, size), offset, size)
  {
    var e := LoopEnd(offset, size - 4, 4);
    var x := XorWords(s, offset, e);
    var t := WithChecksum(s, offset, size);
    XorWordsFrame(s, t, offset, e);
    assert t[e..e + 4] == LE32(x);
    assert U32At(t, e) == U32At(LE32(x), 0) by {
      assert t[e] == LE32(x)[0] && t[e + 1] == LE32(x)[1] && t[e + 2] == LE32(x)[2] && t[e + 3] == LE32(x)[3];
    }
    U32RoundTrip(x);
  }

  lemma {:induction false} XorComm(a: nat, b: nat)
    ensures Xor(a, b) == Xor(b, a)
    decreases a + b
  {
    if a != 0 && b != 0 {
      XorComm(a / 2, b / 2);
    }
  }

  /**
   * Changing one word of the checksummed part of a range changes the
   * checksum: a fold of an injective step keeps two different starting
   * values different.
   */
  lemma {:induction false} XorWordsDetects(s: seq<u8>, t: seq<u8>, lo: int, hi: int, q: int)
    requires 0 <= lo <= q && q + 4 <= hi <= |s| && hi <= |t| && (hi - lo) % 4 == 0 && (q - lo) % 4 == 0
    requires Agree(s, t, lo, q) && Agree(s, t, q + 4, hi)
    requires U32At(s, q) != U32At(t, q)
    ensures XorWords(s, lo, hi) != XorWords(t, lo, hi)
    decreases hi - lo
  {
    if hi - 4 == q {
      XorWordsFrame(s, t, lo, q);
      var a := XorWords(s, lo, q);
      Xor32Def(a, U32At(s, q));
      Xor32Def(a, U32At(t, q));
      XorComm(a, U32At(s, q));
      XorComm(a, U32At(t, q));
      if XorWords(s, lo, hi) == XorWords(t, lo, hi) {
        XorCancel(U32At(s, q), U32At(t, q), a);
      }
    } else {
      XorWordsDetects(s, t, lo, hi - 4, q);
      assert U32At(s, hi - 4) == U32At(t, hi - 4);
      Xor32Def(XorWords(s, lo, hi - 4), U32At(s, hi - 4));
      Xor32Def(XorWords(t, lo, hi - 4), U32At(s, hi - 4));
      if XorWords(s, lo, hi) == XorWords(t, lo, hi) {
        XorCancel(XorWords(s, lo, hi - 4), XorWords(t, lo, hi - 4), U32At(s, hi - 4));
      }
    }
  }

  /**
   * A checksummed frame at offset 0 whose payload is altered in one word,
   * the checksum word left as it was, is rejected by `verifyChecksum`.
   */
  lemma ChecksumDetectsAlteredWord(s: seq<u8>, t: seq<u8>, size: int, q: int)
    requires size % 4 == 0 && size > 4 && size <= |s| == |t|
    requires 0 <= q && q % 4 == 0 && q + 4 <= size - 4
    requires ChecksumOk(s, 0, size)
    requires Agree(s, t, 0, q) && Agree(s, t, q + 4, |s|)
    requires U32At(s, q) != U32At(t, q)
    ensures !ChecksumOk(t, 0, size)
  {
    XorWordsDetects(s, t, 0, size - 4, q);
    assert U32At(s, size - 4) == U32At(t, size - 4);
  }

  /** The little-endian word at `i`, read from the array. */
  method LoadWord(raw: array<u8>, i: int) returns (w: int)
    requires 0 <= i && i + 4 <= raw.Length
    ensures w == U32At(raw[..], i)
  {
    w := (raw[i] as int) + 0x100 * (raw[i + 1] as int) + 0x1_0000 * (raw[i + 2] as int) + 0x100_0000 * (raw[i + 3] as int);
  }

  /** Stores the four little-endian bytes of `w` at `i`. */
  method StoreWord(raw: array<u8>, i: int, w: int)
    requires 0 <= i && i + 4 <= raw.Length
    modifies raw
    ensures forall k :: 0 <= k < raw.Length ==> raw[k] == if i <= k < i + 4 then LE32(w)[k - i] else old(raw[k])
  {
    raw[i] := Low8(w);
    raw[i + 1] := Low8(w / 0x100);
    raw[i + 2] := Low8(w / 0x1_0000);
    raw[i + 3] := Low8(w / 0x100_0000);
  }

  /** `NewCrypt.verifyChecksum(raw, offset, size)`. */
  method VerifyChecksum(raw: array<u8>, offset: int, size: int) returns (ok: bool)
    requires 0 <= offset
    requires size % 4 == 0 && size > 4 ==> ChecksumFits(offset, size, raw.Length)
    ensures ok == ChecksumOk(raw[..], offset, size)
    ensures size % 4 != 0 || size <= 4 ==> !ok
  {
    if size % 4 != 0 || size <= 4 {
      return false;
    }
    var chksum, i := FoldWords(raw, offset, size - 4);
    var check := LoadWord(raw, i);
    ok := check == chksum;
  }

  /** `NewCrypt.appendChecksum(raw, offset, size)`. */
  method AppendChecksum(raw: array<u8>, offset: int, size: int)
    requires ChecksumFits(offset, size, raw.Length)
    modifies raw
    ensures raw[..] == WithChecksum(old(raw[..]), offset, size)
  {
    var chksum, i := FoldWords(raw, offset, size - 4);
    StoreWord(raw, i, chksum);
    assert raw[..] == Put(old(raw[..]), i, LE32(chksum));
  }

  /** The loop both checksum methods run: the XOR of the words at `offset`, `offset + 4`, ... below `count`. */
  method FoldWords(raw: array<u8>, offset: int, count: int) returns (chksum: int, i: int)
    requires 0 <= offset && LoopEnd(offset, count, 4) <= raw.Length
    ensures i == LoopEnd(offset, count, 4)
    ensures chksum == XorWords(raw[..], offset, i)
  {
    chksum := 0;
    i := offset;
    while i < count
      invariant offset <= i && (i - offset) % 4 == 0
      invariant LoopEnd(i, count, 4) == LoopEnd(offset, count, 4)
      invariant chksum == XorWords(raw[..], offset, i)
      decreases count - i
    {
      var check := LoadWord(raw, i);
      chksum := Xor32(chksum, check);
      i := i + 4;
    }
  }

  // ================================================================ XOR chain of the first frame

  /** The running key after the words at `lo`, `lo + 4`, ... below `hi` are added to `acc`, modulo 2^32. */
  function RunningKey(s: seq<u8>, lo: int, hi: int, acc: int): (k: int)
    requires 0 <= lo <= hi <= |s| && (hi - lo) % 4 == 0 && 0 <= acc < TWO32
    ensures 0 <= k < TWO32
    decreases hi - lo
  {
    if hi == lo then acc else (RunningKey(s, lo, hi - 4, acc) + U32At(s, hi - 4)) % TWO32
  }

  /**
   * The array after `encXORPass`, with its first word at `pos`: each word
   * before the loop's end `e` becomes itself XOR the running key that already
   * includes it, the word at `e` receives the final key, and every other byte
   * is kept.
   */
  function XorPass(s: seq<u8>, pos: int, stop: int, acc: int): (r: seq<u8>)
    requires 0 <= pos && LoopEnd(pos, stop, 4) + 4 <= |s| && 0 <= acc < TWO32
    ensures |r| == |s|
  {
    var e := LoopEnd(pos, stop, 4);
    seq(|s|, k requires 0 <= k < |s| => XorPassByte(s, pos, e, acc, k))
  }

  /** Byte `k` of `XorPass`, where `e` is the position of the key word. */
  function XorPassByte(s: seq<u8>, pos: int, e: int, acc: int, k: int): u8
    requires 0 <= pos <= e && e + 4 <= |s| && (e - pos) % 4 == 0 && 0 <= acc < TWO32 && 0 <= k < |s|
  {
    if k < pos || k >= e + 4 then s[k]
    else if k >= e then LE32(RunningKey(s, pos, e, acc))[k - e]
    else
      var q := k - (k - pos) % 4;
      LE32(Xor32(U32At(s, q), RunningKey(s, pos, q + 4, acc)))[k - q]
  }

  /** The bytes of a word the loop visits. */
  lemma XorPassByteAt(s: seq<u8>, pos: int, e: int, acc: int, q: int, j: int)
    requires 0 <= pos <= e && e + 4 <= |s| && (e - pos) % 4 == 0 && 0 <= acc < TWO32
    requires pos <= q < e && (q - pos) % 4 == 0 && 0 <= j < 4
    ensures XorPassByte(s, pos, e, acc, q + j) == LE32(Xor32(U32At(s, q), RunningKey(s, pos, q + 4, acc)))[j]
  {
    assert (q + j - pos) % 4 == j;
  }

  /** The running key after one more word. */
  lemma RunningKeyStep(s: seq<u8>, lo: int, pos: int, acc: int)
    requires 0 <= lo <= pos && pos + 4 <= |s| && (pos - lo) % 4 == 0 && 0 <= acc < TWO32
    ensures RunningKey(s, lo, pos + 4, acc) == (RunningKey(s, lo, pos, acc) + U32At(s, pos)) % TWO32
  {
  }

  /** All four bytes of a word the loop visits. */
  lemma XorPassWordBytes(s: seq<u8>, pos: int, e: int, acc: int, q: int)
    requires 0 <= pos <= e && e + 4 <= |s| && (e - pos) % 4 == 0 && 0 <= acc < TWO32
    requires pos <= q < e && (q - pos) % 4 == 0
    ensures forall k :: q <= k < q + 4 ==>
      XorPassByte(s, pos, e, acc, k) == LE32(Xor32(U32At(s, q), RunningKey(s, pos, q + 4, acc)))[k - q]
  {
    forall k | q <= k < q + 4
      ensures XorPassByte(s, pos, e, acc, k) == LE32(Xor32(U32At(s, q), RunningKey(s, pos, q + 4, acc)))[k - q]
    {
      XorPassByteAt(s, pos, e, acc, q, k - q);
    }
  }

  /** Reading back a word that was stored byte by byte. */
  lemma WordRead(r: seq<u8>, q: int, v: int)
    requires 0 <= q && q + 4 <= |r| && 0 <= v < TWO32
    requires forall j :: 0 <= j < 4 ==> r[q + j] == LE32(v)[j]
    ensures U32At(r, q) == v
  {
    assert r[q] == LE32(v)[0] && r[q + 1] == LE32(v)[1] && r[q + 2] == LE32(v)[2] && r[q + 3] == LE32(v)[3];
    U32RoundTrip(v);
  }

  /** `encXORPass` leaves the bytes before its first word and after its key word as they were. */
  lemma XorPassFrame(s: seq<u8>, pos: int, stop: int, acc: int)
    requires 0 <= pos && LoopEnd(pos, stop, 4) + 4 <= |s| && 0 <= acc < TWO32
    ensures Agree(XorPass(s, pos, stop, acc), s, 0, pos)
    ensures Agree(XorPass(s, pos, stop, acc), s, LoopEnd(pos, stop, 4) + 4, |s|)
  {
  }

  /** The word at the loop's end holds the final running key. */
  lemma XorPassKey(s: seq<u8>, pos: int, stop: int, acc: int)
    requires 0 <= pos && LoopEnd(pos, stop, 4) + 4 <= |s| && 0 <= acc < TWO32
    ensures U32At(XorPass(s, pos, stop, acc), LoopEnd(pos, stop, 4)) == RunningKey(s, pos, LoopEnd(pos, stop, 4), acc)
  {
    var e := LoopEnd(pos, stop, 4);
    WordRead(XorPass(s, pos, stop, acc), e, RunningKey(s, pos, e, acc));
  }

  /** Each word the loop visits becomes the original word XOR the running key that already includes it. */
  lemma XorPassWord(s: seq<u8>, pos: int, stop: int, acc: int, q: int)
    requires 0 <= pos && LoopEnd(pos, stop, 4) + 4 <= |s| && 0 <= acc < TWO32
    requires pos <= q < stop && (q - pos) % 4 == 0
    ensures U32At(XorPass(s, pos, stop, acc), q) == Xor32(U32At(s, q), RunningKey(s, pos, q + 4, acc))
  {
    LoopEndPast(pos, q, stop, 4);
    var v := Xor32(U32At(s, q), RunningKey(s, pos, q + 4, acc));
    var r := XorPass(s, pos, stop, acc);
    forall j | 0 <= j < 4
      ensures r[q + j] == LE32(v)[j]
    {
      XorPassByteAt(s, pos, LoopEnd(pos, stop, 4), acc, q, j);
    }
    WordRead(r, q, v);
  }

  /** An array that holds `XorPassByte` at every position is `XorPass`. */
  lemma XorPassEq(s: seq<u8>, pos: int, stop: int, acc: int, r: seq<u8>)
    requires 0 <= pos && LoopEnd(pos, stop, 4) + 4 <= |s| && 0 <= acc < TWO32 && |r| == |s|
    requires forall k :: 0 <= k < |s| ==> r[k] == XorPassByte(s, pos, LoopEnd(pos, stop, 4), acc, k)
    ensures r == XorPass(s, pos, stop, acc)
  {
  }

  /** `NewCrypt.encXORPass(raw, offset, size, key)`; its loop bound `size - 8` ignores the offset (NewCrypt.java:160). */
  method EncXorPass(raw: array<u8>, offset: int, size: int, key: int)
    requires IsInt32(key) && 0 <= offset && LoopEnd(offset + 4, size - 8, 4) + 4 <= raw.Length
    modifies raw
    ensures raw[..] == XorPass(old(raw[..]), offset + 4, size - 8, key % TWO32)
  {
    ghost var s := raw[..];
    var acc := key % TWO32;
    var lo, stop := offset + 4, size - 8;
    var pos, ecx := XorLoop(raw, lo, stop, acc);
    KeyStep(raw, s, lo, acc, pos, ecx);
    XorPassEq(s, lo, stop, acc, raw[..]);
  }

  /** The loop of `encXORPass`: every word from `lo` below `stop` is folded into the key and XORed with it. */
  method XorLoop(raw: array<u8>, lo: int, stop: int, acc: int) returns (pos: int, ecx: int)
    requires 0 <= lo && LoopEnd(lo, stop, 4) + 4 <= raw.Length && 0 <= acc < TWO32
    modifies raw
    ensures pos == LoopEnd(lo, stop, 4) && ecx == RunningKey(old(raw[..]), lo, pos, acc)
    ensures forall k :: 0 <= k < pos ==> raw[k] == XorPassByte(old(raw[..]), lo, pos, acc, k)
    ensures forall k :: pos <= k < raw.Length ==> raw[k] == old(raw[k])
  {
    pos := lo;
    ecx := acc;
    ghost var s := raw[..];
    ghost var e := LoopEnd(lo, stop, 4);
    while pos < stop
      invariant lo <= pos <= e && (pos - lo) % 4 == 0
      invariant LoopEnd(pos, stop, 4) == e
      invariant ecx == RunningKey(s, lo, pos, acc)
      invariant forall k :: 0 <= k < pos ==> raw[k] == XorPassByte(s, lo, e, acc, k)
      invariant forall k :: pos <= k < raw.Length ==> raw[k] == s[k]
      decreases stop - pos
    {
      LoopEndStep(pos, stop, 4);
      AlignedStep(lo, pos);
      ecx := XorStep(raw, s, lo, e, acc, pos, ecx);
      pos := pos + 4;
    }
  }

  /** One iteration of the `encXORPass` loop: the word at `pos` enters the key and is replaced by itself XOR the key. */
  method XorStep(raw: array<u8>, ghost s: seq<u8>, ghost lo: int, ghost e: int, ghost acc: int, pos: int, ecx: int)
      returns (key: int)
    requires 0 <= lo <= pos < e && e + 4 <= |s| == raw.Length && (e - lo) % 4 == 0 && (pos - lo) % 4 == 0
    requires 0 <= acc < TWO32 && ecx == RunningKey(s, lo, pos, acc)
    requires forall k :: pos <= k < raw.Length ==> raw[k] == s[k]
    modifies raw
    ensures key == RunningKey(s, lo, pos + 4, acc)
    ensures forall k :: 0 <= k < raw.Length ==> raw[k] == if pos <= k < pos + 4 then XorPassByte(s, lo, e, acc, k) else old(raw[k])
  {
    var edx := LoadWord(raw, pos);
    assert edx == U32At(s, pos);
    key := (ecx + edx) % TWO32;
    RunningKeyStep(s, lo, pos, acc);
    edx := Xor32(edx, key);
    XorPassWordBytes(s, lo, e, acc, pos);
    StoreWord(raw, pos, edx);
  }

  /** The store after the `encXORPass` loop: the final key goes into the word at the loop's end. */
  method KeyStep(raw: array<u8>, ghost s: seq<u8>, ghost lo: int, ghost acc: int, e: int, ecx: int)
    requires 0 <= lo <= e && e + 4 <= |s| == raw.Length && (e - lo) % 4 == 0
    requires 0 <= acc < TWO32 && ecx == RunningKey(s, lo, e, acc)
    requires forall k :: 0 <= k < e ==> raw[k] == XorPassByte(s, lo, e, acc, k)
    requires forall k :: e <= k < raw.Length ==> raw[k] == s[k]
    modifies raw
    ensures forall k :: 0 <= k < raw.Length ==> raw[k] == XorPassByte(s, lo, e, acc, k)
  {
    StoreWord(raw, e, ecx);
  }

  // ================================================================ ECB stride loops

  /** The eight bytes at `q`. */
  function BlockAt(s: seq<u8>, q: int): (b: Block)
    requires 0 <= q && q + 8 <= |s|
    ensures b == s[q..q + 8]
  {
    s[q..q + 8]
  }

  /** The bytes after `f` is applied to the blocks at `i`, `i + 8`, ... below `end`. */
  function Ecb(f: (seq<u8>, Block) -> Block, key: seq<u8>, s: seq<u8>, i: int, end: int): (r: seq<u8>)
    requires 0 <= i && LoopEnd(i, end, 8) <= |s|
    ensures |r| == |s|
    decreases end - i
  {
    if i < end then Ecb(f, key, Put(s, i, f(key, s[i..i + 8])), i + 8, end) else s
  }

  /** Work on a later block commutes with a write to an earlier one. */
  lemma {:induction false} EcbPutBefore(f: (seq<u8>, Block) -> Block, key: seq<u8>, s: seq<u8>, p: int, x: Block, i: int, end: int)
    requires 0 <= p && p + 8 <= i && LoopEnd(i, end, 8) <= |s|
    ensures Ecb(f, key, Put(s, p, x), i, end) == Put(Ecb(f, key, s, i, end), p, x)
    decreases end - i
  {
    if i < end {
      var t := Put(s, p, x);
      assert t[i..i + 8] == s[i..i + 8];
      var y := f(key, s[i..i + 8]);
      assert Put(t, i, y) == Put(Put(s, i, y), p, x);
      EcbPutBefore(f, key, Put(s, i, y), p, x, i + 8, end);
    }
  }

  /**
   * The ECB loops touch exactly the blocks at `i`, `i + 8`, ... below
   * `end`, each replaced by the block function of its original contents.
   */
  lemma EcbBlocks(f: (seq<u8>, Block) -> Block, key: seq<u8>, s: seq<u8>, i: int, end: int)
    requires 0 <= i && LoopEnd(i, end, 8) <= |s|
    ensures var r := Ecb(f, key, s, i, end); var e := LoopEnd(i, end, 8);
      && r[..i] == s[..i] && r[e..] == s[e..]
      && forall q :: i <= q < end && (q - i) % 8 == 0 ==> BlockAt(r, q) == f(key, BlockAt(s, q))
  {
    EcbOutside(f, key, s, i, end);
    forall q | i <= q < end && (q - i) % 8 == 0
      ensures BlockAt(Ecb(f, key, s, i, end), q) == f(key, BlockAt(s, q))
    {
      EcbBlock(f, key, s, i, end, q);
    }
  }

  /** The ECB loops leave the bytes before `i` and from the loop's end on as they were. */
  lemma {:induction false} EcbOutside(f: (seq<u8>, Block) -> Block, key: seq<u8>, s: seq<u8>, i: int, end: int)
    requires 0 <= i && LoopEnd(i, end, 8) <= |s|
    ensures var r := Ecb(f, key, s, i, end); var e := LoopEnd(i, end, 8);
      r[..i] == s[..i] && r[e..] == s[e..]
    decreases end - i
  {
    if i < end {
      var e := LoopEnd(i, end, 8);
      LoopEndStep(i, end, 8);
      LoopEndPast(i, i, end, 8);
      var s1 := Put(s, i, f(key, s[i..i + 8]));
      EcbOutside(f, key, s1, i + 8, end);
      var r := Ecb(f, key, s1, i + 8, end);
      assert r == Ecb(f, key, s, i, end);
      assert r[..i] == r[..i + 8][..i];
      assert s1[..i] == s[..i];
      assert s1[e..] == s[e..];
    }
  }

  /** A positive whole number of blocks is at least one block more than one block fewer. */
  lemma BlockAfter(d: int)
    requires d > 0 && d % 8 == 0
    ensures d >= 8 && (d - 8) % 8 == 0
  {
  }

  /** The ECB loops replace the block at each visited `q` by the block function of its original contents. */
  lemma {:induction false} EcbBlock(f: (seq<u8>, Block) -> Block, key: seq<u8>, s: seq<u8>, i: int, end: int, q: int)
    requires 0 <= i && LoopEnd(i, end, 8) <= |s|
    requires i <= q < end && (q - i) % 8 == 0
    ensures BlockAt(Ecb(f, key, s, i, end), q) == f(key, BlockAt(s, q))
    decreases end - i
  {
    LoopEndStep(i, end, 8);
    LoopEndPast(i, i, end, 8);
    var y := f(key, s[i..i + 8]);
    var s1 := Put(s, i, y);
    var r := Ecb(f, key, s1, i + 8, end);
    assert r == Ecb(f, key, s, i, end);
    if q == i {
      EcbOutside(f, key, s1, i + 8, end);
      assert r[i..i + 8] == r[..i + 8][i..];
      assert s1[i..i + 8] == s1[..i + 8][i..];
    } else {
      BlockAfter(q - i);
      EcbBlock(f, key, s1, i + 8, end, q);
      assert BlockAt(s1, q) == BlockAt(s, q);
    }
  }

  /** One turn of the block loop: the block at `i` fits, and the rest of the pass starts at `i + 8`. */
  lemma EcbStep(f: (seq<u8>, Block) -> Block, key: seq<u8>, s: seq<u8>, i: int, end: int, e: int)
    requires 0 <= i < end && LoopEnd(i, end, 8) == e && e <= |s|
    ensures i + 8 <= |s| && LoopEnd(i + 8, end, 8) == e
    ensures Ecb(f, key, s, i, end) == Ecb(f, key, Put(s, i, f(key, s[i..i + 8])), i + 8, end)
  {
    LoopEndPast(i, i, end, 8);
  }

  /** With an inverse block pair, decrypting what was encrypted over the same range restores it. */
  lemma {:induction false} EcbRoundTrip(c: BlockCipher, key: seq<u8>, s: seq<u8>, i: int, end: int)
    requires Inverse(c) && 0 <= i && LoopEnd(i, end, 8) <= |s|
    ensures Ecb(c.decrypt, key, Ecb(c.encrypt, key, s, i, end), i, end) == s
    decreases end - i
  {
    if i < end {
      var b := s[i..i + 8];
      var y := c.encrypt(key, b);
      var s1 := Put(s, i, y);
      var t := Ecb(c.encrypt, key, s1, i + 8, end);
      assert Ecb(c.encrypt, key, s, i, end) == t;
      EcbBlocks(c.encrypt, key, s1, i + 8, end);
      assert t[i..i + 8] == y by {
        assert t[..i + 8] == s1[..i + 8];
        assert t[i..i + 8] == t[..i + 8][i..];
        assert s1[i..i + 8] == s1[..i + 8][i..];
      }
      assert c.decrypt(key, y) == b;
      calc {
        Ecb(c.decrypt, key, t, i, end);
        Ecb(c.decrypt, key, Put(t, i, b), i + 8, end);
        { EcbPutBefore(c.encrypt, key, s1, i, b, i + 8, end);
          assert Put(s1, i, b) == s; }
        Ecb(c.decrypt, key, Ecb(c.encrypt, key, s, i + 8, end), i + 8, end);
        { EcbRoundTrip(c, key, s, i + 8, end); }
        s;
      }
    }
  }

  /**
   * A `NewCrypt` instance: a block cipher initialised with a key. Its only
   * state is final, so the class has constant fields.
   */
  class NewCrypt {
    const cipher: BlockCipher
    const key: seq<u8>

    constructor (cipher: BlockCipher, key: seq<u8>)
      ensures this.cipher == cipher && this.key == key
    {
      this.cipher := cipher;
      this.key := key;
    }

    /** `decrypt(raw, offset, size)`: `decryptBlock` at offset, offset + 8, ... below offset + size. */
    method Decrypt(raw: array<u8>, offset: int, size: int)
      requires 0 <= offset && LoopEnd(offset, offset + size, 8) <= raw.Length
      modifies raw
      ensures raw[..] == Ecb(cipher.decrypt, key, old(raw[..]), offset, offset + size)
    {
      var i, end := offset, offset + size;
      ghost var e := LoopEnd(offset, end, 8);
      ghost var goal := Ecb(cipher.decrypt, key, raw[..], offset, end);
      while i < end
        invariant offset <= i && LoopEnd(i, end, 8) == e && e <= raw.Length
        invariant Ecb(cipher.decrypt, key, raw[..], i, end) == goal
        decreases end - i
      {
        EcbStep(cipher.decrypt, key, raw[..], i, end, e);
        DecryptBlock(raw, i);
        i := i + 8;
      }
    }

    /** `crypt(raw, offset, size)`: `encryptBlock` at offset, offset + 8, ... below offset + size. */
    method Crypt(raw: array<u8>, offset: int, size: int)
      requires 0 <= offset && LoopEnd(offset, offset + size, 8) <= raw.Length
      modifies raw
      ensures raw[..] == Ecb(cipher.encrypt, key, old(raw[..]), offset, offset + size)
    {
      var i, end := offset, offset + size;
      ghost var e := LoopEnd(offset, end, 8);
      ghost var goal := Ecb(cipher.encrypt, key, raw[..], offset, end);
      while i < end
        invariant offset <= i && LoopEnd(i, end, 8) == e && e <= raw.Length
        invariant Ecb(cipher.encrypt, key, raw[..], i, end) == goal
        decreases end - i
      {
        EcbStep(cipher.encrypt, key, raw[..], i, end, e);
        EncryptBlock(raw, i);
        i := i + 8;
      }
    }

    method EncryptBlock(raw: array<u8>, i: int)
      requires 0 <= i && i + 8 <= raw.Length
      modifies raw
      ensures raw[..] == Put(old(raw[..]), i, old(cipher.encrypt(key, raw[i..i + 8])))
    {
      var out := cipher.encrypt(key, raw[i..i + 8]);
      forall k | 0 <= k < 8 {
        raw[i + k] := out[k];
      }
    }

    method DecryptBlock(raw: array<u8>, i: int)
      requires 0 <= i && i + 8 <= raw.Length
      modifies raw
      ensures raw[..] == Put(old(raw[..]), i, old(cipher.decrypt(key, raw[i..i + 8])))
    {
      var out := cipher.decrypt(key, raw[i..i + 8]);
      forall k | 0 <= k < 8 {
        raw[i + k] := out[k];
      }
    }
  }
}
