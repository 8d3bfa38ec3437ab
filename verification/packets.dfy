/**
 * The packet codec shared by both channels (util/network/packets): a writer
 * that appends little-endian fields to a growing byte stream, and a reader
 * with a cursor over a decrypted frame. Strings travel as UTF-16LE code units
 * closed by a zero unit.
 *
 * The reader's methods are specified by the pure `Take` functions, which
 * the packet parsers compose; a read past the end of the frame is `None`
 * (Java throws an index exception, which drops the packet).
 */
module Packets {
  import opened Wire
  import opened JavaText

  // ================================================================ UTF-16LE

  /** `text.getBytes("UTF-16LE")`: each code unit as two bytes, low byte first. */
  function Utf16(s: JString): (r: seq<u8>)
    ensures |r| == 2 * |s|
  {
    if s == [] then [] else LE16(s[0]) + Utf16(s[1..])
  }

  /**
   * `new String(bytes, "UTF-16LE")`: each pair of bytes as one code unit; an
   * odd trailing byte decodes to the replacement character U+FFFD.
   */
  function FromUtf16(b: seq<u8>): (r: JString)
    ensures |r| == (|b| + 1) / 2
  {
    seq((|b| + 1) / 2, k requires 0 <= k < (|b| + 1) / 2 =>
      if 2 * k + 1 < |b| then U16At(b, 2 * k) else 0xFFFD)
  }

  /** Code unit `i` of a string sits in bytes `2i` and `2i + 1` of its encoding. */
  lemma {:induction false} Utf16Unit(s: JString, i: int)
    requires 0 <= i < |s|
    ensures U16At(Utf16(s), 2 * i) == s[i]
    decreases |s|
  {
    if i == 0 {
      U16RoundTrip(s[0]);
      assert Utf16(s)[..2] == LE16(s[0]);
    } else {
      Utf16Unit(s[1..], i - 1);
      assert Utf16(s)[2..] == Utf16(s[1..]);
    }
  }

  /** Decoding the bytes of a string, followed by anything, starts with that string. */
  lemma DecodeEncoded(s: JString, rest: seq<u8>)
    ensures |FromUtf16(Utf16(s) + rest)| >= |s|
    ensures FromUtf16(Utf16(s) + rest)[..|s|] == s
  {
    var b := Utf16(s) + rest;
    forall k | 0 <= k < |s|
      ensures FromUtf16(b)[k] == s[k]
    {
      Utf16Unit(s, k);
      assert b[2 * k] == Utf16(s)[2 * k] && b[2 * k + 1] == Utf16(s)[2 * k + 1];
    }
  }

  /** `new String(text.getBytes("UTF-16LE"), "UTF-16LE")` is `text`. */
  lemma Utf16RoundTrip(s: JString)
    ensures FromUtf16(Utf16(s)) == s
  {
    DecodeEncoded(s, []);
    assert Utf16(s) + [] == Utf16(s);
  }

  // ================================================================ writer

  function Zeros(n: nat): (r: seq<u8>)
    ensures |r| == n && forall k :: 0 <= k < n ==> r[k] == 0
  {
    seq(n, k => 0)
  }

  /** The bytes `writeS` appends: the code units, then a zero unit; `null` writes only the zero unit. */
  function StringField(text: Option<JString>): (r: seq<u8>)
    ensures text.Some? ==> r == Utf16(text.value) + [0, 0]
    ensures text.None? ==> r == [0, 0]
  {
    match text
    case Some(t) => Utf16(t) + [0, 0]
    case None => [0, 0]
  }

  /**
   * The stream after `getBytes`: a zero checksum word is reserved and then
   * zeros are added up to a multiple of 8. The earlier bytes stay in place.
   */
  function Sealed(b: seq<u8>): (r: seq<u8>)
    ensures |r| % 8 == 0 && |b| + 4 <= |r| < |b| + 12
    ensures r[..|b|] == b && forall k :: |b| <= k < |r| ==> r[k] == 0
  {
    var t := b + [0, 0, 0, 0];
    var padding := |t| % 8;
    if padding != 0 then t + Zeros(8 - padding) else t
  }

  /** A sealed stream is the stream followed by zeros. */
  lemma SealedIsPadded(b: seq<u8>)
    ensures Sealed(b) == b + Zeros(|Sealed(b)| - |b|)
  {
    var r := Sealed(b);
    assert r == r[..|b|] + r[|b|..];
  }

  /** `getBytes` is not idempotent: sealing a sealed stream reserves a second word and adds a block. */
  lemma SealTwice(b: seq<u8>)
    ensures |Sealed(Sealed(b))| == |Sealed(b)| + 8
  {
  }

  /**
   * A `BaseSendablePacket` (and, for the client channel, the packet buffer
   * its server packets write into): a byte stream that only grows.
   */
  class Writer {
    var bytes: seq<u8>

    constructor ()
      ensures bytes == []
    {
      bytes := [];
    }

    /** `writeC`: the low byte of `v`. */
    method WriteC(v: int)
      modifies this
      ensures bytes == old(bytes) + [Low8(v)]
    {
      bytes := bytes + [Low8(v)];
    }

    /** `writeH`: the two low bytes of `v`, low first. */
    method WriteH(v: int)
      modifies this
      ensures bytes == old(bytes) + LE16(v)
    {
      bytes := bytes + LE16(v);
    }

    /** `writeD`: the four bytes of an `int`, low first. */
    method WriteD(v: int)
      modifies this
      ensures bytes == old(bytes) + LE32(v)
    {
      bytes := bytes + LE32(v);
    }

    /** `writeQ`: the eight bytes of a `long`, low first. */
    method WriteQ(v: int)
      modifies this
      ensures bytes == old(bytes) + LE64(v)
    {
      bytes := bytes + LE64(v);
    }

    /** `writeS`: UTF-16LE code units and a zero unit. */
    method WriteS(text: Option<JString>)
      modifies this
      ensures bytes == old(bytes) + StringField(text)
    {
      if text.Some? {
        bytes := bytes + Utf16(text.value);
      }
      bytes := bytes + [0, 0];
    }

    /** `writeB`: the array, unchanged. */
    method WriteB(b: seq<u8>)
      modifies this
      ensures bytes == old(bytes) + b
    {
      bytes := bytes + b;
    }

    /** `getLength`: the stream size plus the two bytes of the length header. */
    function Length(): (n: int)
      reads this
      ensures n - 2 == |bytes|
    {
      |bytes| + 2
    }

    /** `getBytes`: reserve the checksum word, pad with zeros to a multiple of 8, return the stream. */
    method GetBytes() returns (r: seq<u8>)
      modifies this
      ensures bytes == Sealed(old(bytes)) && r == bytes
    {
      WriteD(0x00);
      var padding := |bytes| % 8;
      if padding != 0 {
        var i := padding;
        while i < 8
          invariant padding <= i <= 8
          invariant bytes == old(bytes) + [0, 0, 0, 0] + Zeros(i - padding)
          decreases 8 - i
        {
          WriteC(0x00);
          i := i + 1;
        }
      }
      r := bytes;
    }
  }

  /** Every write appends: the earlier bytes of the stream are never changed. */
  lemma WritesAppend(before: seq<u8>, field: seq<u8>)
    ensures (before + field)[..|before|] == before
  {
  }

  // ================================================================ reader

  /** A value read and the cursor after it. */
  datatype Got<T> = Got(value: T, next: int)

  /** `readC` at `off`: the unsigned byte. */
  function TakeC(d: seq<u8>, off: nat): (r: Option<Got<int>>)
    ensures r.Some? <==> off + 1 <= |d|
    ensures r.Some? ==> 0 <= r.value.value < 0x100 && r.value.next == off + 1
  {
    if off + 1 <= |d| then Some(Got(d[off] as int, off + 1)) else None
  }

  /** `readH` at `off`: the unsigned little-endian short. */
  function TakeH(d: seq<u8>, off: nat): (r: Option<Got<int>>)
    ensures r.Some? <==> off + 2 <= |d|
    ensures r.Some? ==> 0 <= r.value.value < TWO16 && r.value.next == off + 2
  {
    if off + 2 <= |d| then Some(Got(U16At(d, off), off + 2)) else None
  }

  /** `readD` at `off`: the little-endian `int`. */
  function TakeD(d: seq<u8>, off: nat): (r: Option<Got<int>>)
    ensures r.Some? <==> off + 4 <= |d|
    ensures r.Some? ==> IsInt32(r.value.value) && r.value.next == off + 4
  {
    if off + 4 <= |d| then Some(Got(I32At(d, off), off + 4)) else None
  }

  /** `readQ` at `off`: the little-endian `long`. */
  function TakeQ(d: seq<u8>, off: nat): (r: Option<Got<int>>)
    ensures r.Some? <==> off + 8 <= |d|
    ensures r.Some? ==> IsInt64(r.value.value) && r.value.next == off + 8
  {
    if off + 8 <= |d| then Some(Got(I64At(d, off), off + 8)) else None
  }

  /** `readB(n)` at `off`: exactly the `n` bytes at the cursor. */
  function TakeB(d: seq<u8>, off: nat, n: int): (r: Option<Got<seq<u8>>>)
    ensures r.Some? <==> 0 <= n && off + n <= |d|
    ensures r.Some? ==> r.value.value == d[off..off + n] && r.value.next == off + n
  {
    if 0 <= n && off + n <= |d| then Some(Got(d[off..off + n], off + n)) else None
  }

  /**
   * `readS` at `off`. The rest of the frame is decoded and cut at the first
   * zero unit, and the cursor moves past that unit. With no zero unit, the
   * `substring` call throws after `result` already holds the whole decoded
   * rest: that is returned and the cursor stays. A cursor past the end makes
   * the decoding throw, and `null` is returned.
   */
  function TakeS(d: seq<u8>, off: nat): (r: Option<Got<JString>>)
    ensures r.None? <==> off > |d|
    ensures r.Some? ==> r.value.next == off || r.value.next == off + 2 * |r.value.value| + 2
  {
    if off > |d| then None
    else
      var t := FromUtf16(d[off..]);
      var i := IndexOf(t, 0);
      if i < 0 then Some(Got(t, off))
      else Some(Got(t[..i], off + 2 * i + 2))
  }

  /**
   * When `readS` moves the cursor, the bytes it passed are the encoding of
   * the string it returned and a zero unit; when it does not, the rest of
   * the frame held no zero unit.
   */
  lemma TakeSBytes(d: seq<u8>, off: nat)
    requires off <= |d|
    ensures var r := TakeS(d, off).value;
      if r.next == off then 0 !in r.value && r.value == FromUtf16(d[off..])
      else r.next <= |d| && d[off..r.next] == Utf16(r.value) + [0, 0]
  {
    var t := FromUtf16(d[off..]);
    var i := IndexOf(t, 0);
    if i >= 0 {
      TerminatedString(d[off..], i);
      assert d[off..off + 2 * i + 2] == d[off..][..2 * i + 2];
    }
  }

  /** The bytes in front of the first zero unit are the encoding of the units before it. */
  lemma TerminatedString(b: seq<u8>, i: int)
    requires 0 <= i == IndexOf(FromUtf16(b), 0)
    ensures 2 * i + 2 <= |b| && b[..2 * i + 2] == Utf16(FromUtf16(b)[..i]) + [0, 0]
  {
    var t := FromUtf16(b);
    assert t[i] == 0;
    assert 2 * i + 1 < |b| by {
      assert t[i] == if 2 * i + 1 < |b| then U16At(b, 2 * i) else 0xFFFD;
    }
    ZeroUnit(b, 2 * i);
    EncodedPrefix(b, i);
    assert b[..2 * i + 2] == b[..2 * i] + b[2 * i..2 * i + 2];
  }

  /** A zero unit is two zero bytes. */
  lemma ZeroUnit(b: seq<u8>, p: int)
    requires 0 <= p && p + 1 < |b| && U16At(b, p) == 0
    ensures b[p..p + 2] == [0, 0]
  {
  }

  /** The first `2i` bytes are the encoding of the first `i` decoded units. */
  lemma {:induction false} EncodedPrefix(b: seq<u8>, i: int)
    requires 0 <= i && 2 * i <= |b|
    ensures b[..2 * i] == Utf16(FromUtf16(b)[..i])
    decreases i
  {
    if i > 0 {
      var t := FromUtf16(b);
      DecodeTail(b);
      EncodedPrefix(b[2..], i - 1);
      EncodeUnit(b);
      assert t[..i][1..] == t[1..][..i - 1];
      assert b[..2 * i] == b[..2] + b[2..][..2 * (i - 1)];
    }
  }

  /** Dropping the first two bytes drops the first decoded unit. */
  lemma DecodeTail(b: seq<u8>)
    requires |b| >= 2
    ensures FromUtf16(b[2..]) == FromUtf16(b)[1..]
  {
    var t, u := FromUtf16(b), FromUtf16(b[2..]);
    forall k | 0 <= k < |u|
      ensures u[k] == t[k + 1]
    {
      if 2 * k + 1 < |b| - 2 {
        assert U16At(b[2..], 2 * k) == U16At(b, 2 * k + 2);
      }
    }
  }

  /** The first two bytes are the encoding of the first decoded unit. */
  lemma EncodeUnit(b: seq<u8>)
    requires |b| >= 2
    ensures LE16(FromUtf16(b)[0]) == b[..2]
  {
    var v := U16At(b, 0);
    assert FromUtf16(b)[0] == v;
    DivPlusMul(b[1] as int, b[0] as int, 0x100);
  }

  /** The cursor after a read that throws one byte past the end of the frame. */
  function Overrun(d: seq<u8>, off: nat): int
  {
    if off > |d| then off + 1 else |d| + 1
  }

  /**
   * A `BaseRecievePacket`: a decrypted frame and a cursor that starts after
   * the opcode byte.
   */
  class Reader {
    const data: seq<u8>
    var off: nat

    constructor (data: seq<u8>)
      ensures this.data == data && off == 1
    {
      this.data := data;
      off := 1;
    }

    /** `readC`; past the end, the byte read throws after `_off++`. */
    method ReadC() returns (r: Option<int>)
      modifies this
      ensures match TakeC(data, old(off))
        case Some(g) => r == Some(g.value) && off == g.next
        case None => r == None && off == Overrun(data, old(off))
    {
      var g := TakeC(data, off);
      if g.Some? {
        r, off := Some(g.value.value), g.value.next;
      } else {
        r, off := None, Overrun(data, off);
      }
    }

    /** `readH`. */
    method ReadH() returns (r: Option<int>)
      modifies this
      ensures match TakeH(data, old(off))
        case Some(g) => r == Some(g.value) && off == g.next
        case None => r == None && off == Overrun(data, old(off))
    {
      var g := TakeH(data, off);
      if g.Some? {
        r, off := Some(g.value.value), g.value.next;
      } else {
        r, off := None, Overrun(data, off);
      }
    }

    /** `readD`. */
    method ReadD() returns (r: Option<int>)
      modifies this
      ensures match TakeD(data, old(off))
        case Some(g) => r == Some(g.value) && off == g.next
        case None => r == None && off == Overrun(data, old(off))
    {
      var g := TakeD(data, off);
      if g.Some? {
        r, off := Some(g.value.value), g.value.next;
      } else {
        r, off := None, Overrun(data, off);
      }
    }

    /** `readQ`. */
    method ReadQ() returns (r: Option<int>)
      modifies this
      ensures match TakeQ(data, old(off))
        case Some(g) => r == Some(g.value) && off == g.next
        case None => r == None && off == Overrun(data, old(off))
    {
      var g := TakeQ(data, off);
      if g.Some? {
        r, off := Some(g.value.value), g.value.next;
      } else {
        r, off := None, Overrun(data, off);
      }
    }

    /** `readB(n)`; `arraycopy` throws before the cursor moves. */
    method ReadB(n: int) returns (r: Option<seq<u8>>)
      modifies this
      ensures match TakeB(data, old(off), n)
        case Some(g) => r == Some(g.value) && off == g.next
        case None => r == None && off == old(off)
    {
      var g := TakeB(data, off, n);
      if g.Some? {
        r, off := Some(g.value.value), g.value.next;
      } else {
        r := None;
      }
    }

    /** `readS`; the exception is caught inside, so `null` comes back instead. */
    method ReadS() returns (r: Option<JString>)
      modifies this
      ensures match TakeS(data, old(off))
        case Some(g) => r == Some(g.value) && off == g.next
        case None => r == None && off == old(off)
    {
      var g := TakeS(data, off);
      if g.Some? {
        r, off := Some(g.value.value), g.value.next;
      } else {
        r := None;
      }
    }
  }

  // ================================================================ reading back what was written

  /** `readC` after `writeC(v)` gives the low byte of `v`. */
  lemma ReadWrittenC(prefix: seq<u8>, v: int, rest: seq<u8>)
    ensures TakeC(prefix + [Low8(v)] + rest, |prefix|) == Some(Got(v % 0x100, |prefix| + 1))
  {
  }

  /** `readH` after `writeH(v)` gives the low 16 bits of `v`. */
  lemma ReadWrittenH(prefix: seq<u8>, v: int, rest: seq<u8>)
    ensures TakeH(prefix + LE16(v) + rest, |prefix|) == Some(Got(v % TWO16, |prefix| + 2))
  {
    var d := prefix + LE16(v) + rest;
    assert d[|prefix|..|prefix| + 2] == LE16(v);
    U16RoundTrip(v);
  }

  /** `readD` after `writeD(v)` gives back every `int`. */
  lemma ReadWrittenD(prefix: seq<u8>, v: int, rest: seq<u8>)
    requires IsInt32(v)
    ensures TakeD(prefix + LE32(v) + rest, |prefix|) == Some(Got(v, |prefix| + 4))
  {
    var d := prefix + LE32(v) + rest;
    assert d[|prefix|] == LE32(v)[0] && d[|prefix| + 1] == LE32(v)[1];
    assert d[|prefix| + 2] == LE32(v)[2] && d[|prefix| + 3] == LE32(v)[3];
    I32RoundTrip(v);
  }

  /** `readQ` after `writeQ(v)` gives back every `long`. */
  lemma ReadWrittenQ(prefix: seq<u8>, v: int, rest: seq<u8>)
    requires IsInt64(v)
    ensures TakeQ(prefix + LE64(v) + rest, |prefix|) == Some(Got(v, |prefix| + 8))
  {
    var d := prefix + LE64(v) + rest;
    var p := |prefix|;
    forall k | 0 <= k < 8
      ensures d[p + k] == LE64(v)[k]
    {
    }
    assert U32At(d, p) == U32At(LE64(v), 0);
    assert U32At(d, p + 4) == U32At(LE64(v), 4);
    I64RoundTrip(v);
  }

  /** `readB(|x|)` after `writeB(x)` gives back `x`. */
  lemma ReadWrittenB(prefix: seq<u8>, x: seq<u8>, rest: seq<u8>)
    ensures TakeB(prefix + x + rest, |prefix|, |x|) == Some(Got(x, |prefix| + |x|))
  {
    var d := prefix + x + rest;
    assert d[|prefix|..|prefix| + |x|] == x;
  }

  /** `readS` after `writeS(t)`, for a string without a zero unit, gives back `t` and moves past its terminator. */
  lemma ReadWrittenS(prefix: seq<u8>, t: JString, rest: seq<u8>)
    requires forall k :: 0 <= k < |t| ==> t[k] != 0
    ensures TakeS(prefix + Utf16(t) + [0, 0] + rest, |prefix|) == Some(Got(t, |prefix| + 2 * |t| + 2))
  {
    DecodeTerminated(t, rest);
    TakeSWritten(prefix, Utf16(t), rest, t);
  }

  /** `readS` after any bytes `e` and a zero unit that decode to `t` and then the zero unit. */
  lemma TakeSWritten(prefix: seq<u8>, e: seq<u8>, rest: seq<u8>, t: JString)
    requires var u := FromUtf16(e + ([0, 0] + rest)); IndexOf(u, 0) == |t| && u[..|t|] == t
    ensures TakeS(prefix + e + [0, 0] + rest, |prefix|) == Some(Got(t, |prefix| + 2 * |t| + 2))
  {
    DropPrefix(prefix, e, rest);
    TakeSAt(prefix + e + [0, 0] + rest, |prefix|, e + ([0, 0] + rest), t);
  }

  /** `readS` returns `t` when the rest of the frame decodes to `t` and then a zero unit. */
  lemma TakeSAt(d: seq<u8>, off: nat, b: seq<u8>, t: JString)
    requires off <= |d| && d[off..] == b
    requires IndexOf(FromUtf16(b), 0) == |t| && FromUtf16(b)[..|t|] == t
    ensures TakeS(d, off) == Some(Got(t, off + 2 * |t| + 2))
  {
  }

  /** Decoding a string's bytes and a zero unit finds the zero unit right after the string. */
  lemma DecodeTerminated(t: JString, rest: seq<u8>)
    requires forall k :: 0 <= k < |t| ==> t[k] != 0
    ensures var u := FromUtf16(Utf16(t) + ([0, 0] + rest));
      IndexOf(u, 0) == |t| && u[..|t|] == t
  {
    var b := Utf16(t) + ([0, 0] + rest);
    DecodeEncoded(t, [0, 0] + rest);
    var u := FromUtf16(b);
    assert u[|t|] == 0 by {
      assert b[2 * |t|] == 0 && b[2 * |t| + 1] == 0;
      assert U16At(b, 2 * |t|) == 0;
    }
    IndexOfFirst(u, t, 0);
  }

  /** What follows a prefix in a written stream. */
  lemma DropPrefix(prefix: seq<u8>, e: seq<u8>, rest: seq<u8>)
    ensures (prefix + e + [0, 0] + rest)[|prefix|..] == e + ([0, 0] + rest)
  {
    assert prefix + e + [0, 0] + rest == prefix + (e + ([0, 0] + rest));
  }

  /** The first occurrence of `c` in `u`, when `u` starts with `t`, `t` has no `c` and the next unit is `c`. */
  lemma IndexOfFirst(u: JString, t: JString, c: JChar)
    requires |u| > |t| && u[..|t|] == t && u[|t|] == c
    requires forall k :: 0 <= k < |t| ==> t[k] != c
    ensures IndexOf(u, c) == |t| && u[..IndexOf(u, c)] == t
  {
  }
}
