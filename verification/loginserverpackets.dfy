/**
 * The packets the login server sends to game servers
 * (login/network/loginserverpackets). Each constructor appends its fields to
 * a fresh stream, and `getContent` is `getBytes`: the stream with a checksum
 * reserve and zero padding to a multiple of 8.
 */
module LoginServerPackets {
  import opened Wire
  import opened JavaText
  import opened Packets

  /** The protocol revision both sides announce. */
  const PROTOCOL_REV := 0x0106

  /** The reasons a `LoginServerFail` carries. */
  const REASON_INVALID_PROTOCOL := 0
  const REASON_IP_BANNED := 1
  const REASON_IP_RESERVED := 2
  const REASON_WRONG_HEXID := 3
  const REASON_ID_RESERVED := 4
  const REASON_NO_FREE_ID := 5
  const NOT_AUTHED := 6
  const REASON_ALREADY_LOGGED_IN := 7

  /** The block a `LoginServerFail` for `reason` consists of. */
  function FailContent(reason: int): seq<u8>
  {
    [0x01, Low8(reason), 0, 0, 0, 0, 0, 0]
  }

  /** `new LoginServerFail(reason).getContent()`: opcode 0x01 and the reason's low byte in one zero-padded block. */
  method LoginServerFail(reason: int) returns (content: seq<u8>)
    ensures |content| == 8 && content[0] == 0x01 && content[1] == reason % 0x100
    ensures forall k :: 2 <= k < 8 ==> content[k] == 0
    ensures TakeC(content, 1) == Some(Got(reason % 0x100, 2))
    ensures content == FailContent(reason)
  {
    var w := new Writer();
    w.WriteC(0x01);
    w.WriteC(reason);
    content := w.GetBytes();
    ReadWrittenC([0x01], reason, content[2..]);
    assert content == [0x01] + [Low8(reason)] + content[2..];
  }

  /**
   * `new InitLS(publickey).getContent()`: opcode 0x00, the protocol revision,
   * the key length and the key, padded. The game server reads the fields back
   * in that order from cursor 1.
   */
  method InitLS(publicKey: seq<u8>) returns (content: seq<u8>)
    requires IsInt32(|publicKey|)
    ensures |content| % 8 == 0 && 13 + |publicKey| <= |content| < 21 + |publicKey|
    ensures content[0] == 0x00
    ensures TakeD(content, 1) == Some(Got(PROTOCOL_REV, 5))
    ensures TakeD(content, 5) == Some(Got(|publicKey|, 9))
    ensures TakeB(content, 9, |publicKey|) == Some(Got(publicKey, 9 + |publicKey|))
    ensures forall k :: 9 + |publicKey| <= k < |content| ==> content[k] == 0
  {
    var w := new Writer();
    w.WriteC(0x00);
    w.WriteD(PROTOCOL_REV);
    w.WriteD(|publicKey|);
    w.WriteB(publicKey);
    ghost var b := w.bytes;
    content := w.GetBytes();
    SealedIsPadded(b);
    ghost var pad := Zeros(|content| - |b|);
    ghost var h, r, l := [0x00], LE32(PROTOCOL_REV), LE32(|publicKey|);
    assert content == h + r + l + publicKey + pad;
    ReadWrittenB(h + r + l, publicKey, pad);
    AppendAssoc(h + r + l, publicKey, pad);
    ReadWrittenD(h + r, |publicKey|, publicKey + pad);
    AppendAssoc(h + r, l, publicKey + pad);
    AppendAssoc(l, publicKey, pad);
    ReadWrittenD(h, PROTOCOL_REV, l + publicKey + pad);
  }

  /**
   * `new PublicKey(publickey).getContent()`: opcode 0x00, the key length and
   * the key, padded.
   */
  method PublicKey(publicKey: seq<u8>) returns (content: seq<u8>)
    requires IsInt32(|publicKey|)
    ensures |content| % 8 == 0 && 9 + |publicKey| <= |content| < 17 + |publicKey|
    ensures content[0] == 0x00
    ensures TakeD(content, 1) == Some(Got(|publicKey|, 5))
    ensures TakeB(content, 5, |publicKey|) == Some(Got(publicKey, 5 + |publicKey|))
    ensures forall k :: 5 + |publicKey| <= k < |content| ==> content[k] == 0
  {
    var w := new Writer();
    w.WriteC(0x00);
    w.WriteD(|publicKey|);
    w.WriteB(publicKey);
    ghost var b := w.bytes;
    content := w.GetBytes();
    SealedIsPadded(b);
    ghost var pad := Zeros(|content| - |b|);
    assert content == [0x00] + LE32(|publicKey|) + (publicKey + pad);
    ReadWrittenD([0x00], |publicKey|, publicKey + pad);
    assert content == [0x00] + LE32(|publicKey|) + publicKey + pad;
    ReadWrittenB([0x00] + LE32(|publicKey|), publicKey, pad);
  }

  /**
   * `new PlayerAuthResponse(account, response).getContent()`: opcode 0x03,
   * the account as a string field, and 1 or 0 for the response, padded.
   */
  method PlayerAuthResponse(account: Option<JString>, response: bool) returns (content: seq<u8>)
    ensures var f := StringField(account);
      && |content| % 8 == 0 && 2 + |f| + 4 <= |content| < 2 + |f| + 12
      && content[0] == 0x03 && content[1..1 + |f|] == f
      && content[1 + |f|] == (if response then 1 else 0)
      && forall k :: 2 + |f| <= k < |content| ==> content[k] == 0
  {
    var w := new Writer();
    w.WriteC(0x03);
    w.WriteS(account);
    w.WriteC(if response then 1 else 0);
    assert w.bytes == [0x03] + StringField(account) + [if response then 1 else 0];
    content := w.GetBytes();
    SealedFields(StringField(account), if response then 1 else 0);
  }

  /** The layout of a sealed `0x03, field, flag` stream. */
  lemma SealedFields(f: seq<u8>, x: u8)
    ensures var c := Sealed([0x03] + f + [x]);
      && |c| % 8 == 0 && 2 + |f| + 4 <= |c| < 2 + |f| + 12
      && c[0] == 0x03 && c[1..1 + |f|] == f && c[1 + |f|] == x
      && forall k :: 2 + |f| <= k < |c| ==> c[k] == 0
  {
    var b := [0x03] + f + [x];
    var c := Sealed(b);
    assert c[..|b|] == b;
    assert c[1..1 + |f|] == b[1..1 + |f|];
    assert b[1..1 + |f|] == f;
  }

  /**
   * The game server reads a `PlayerAuthResponse` back: for an account name
   * without a zero unit, `readS` at cursor 1 gives the name and the next
   * `readC` the response.
   */
  lemma PlayerAuthResponseReadBack(account: JString, response: bool, content: seq<u8>)
    requires forall k :: 0 <= k < |account| ==> account[k] != 0
    requires var f := StringField(Some(account));
      && |content| >= 2 + |f| && content[0] == 0x03 && content[1..1 + |f|] == f
      && content[1 + |f|] == (if response then 1 else 0)
    ensures var next := 3 + 2 * |account|;
      && TakeS(content, 1) == Some(Got(account, next))
      && TakeC(content, next) == Some(Got(if response then 1 else 0, next + 1))
  {
    var f := StringField(Some(account));
    var rest := content[1 + |f|..];
    FieldThenRest(content, f);
    assert f + rest == Utf16(account) + ([0, 0] + rest);
    DecodeTerminated(account, rest);
    TakeSAt(content, 1, content[1..], account);
  }

  /** After the opcode, a stream holding the bytes `f` at cursor 1 is those, then the rest. */
  lemma FieldThenRest(content: seq<u8>, f: seq<u8>)
    requires |content| >= 1 + |f| && content[1..1 + |f|] == f
    ensures content[1..] == f + content[1 + |f|..]
  {
    assert content[1..] == content[1..1 + |f|] + content[1 + |f|..];
  }
}
