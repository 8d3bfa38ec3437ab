/**
 * The packets game servers send to the login server
 * (login/network/gameserverpackets) and their dispatch by connection state
 * (login/network/L2JGameServerPacketHandler.java).
 *
 * Each handler is the packet's constructor: it reads its fields from cursor 1
 * of the decrypted frame and acts at once. A fixed-width read past the end of
 * the frame throws out of the constructor, so the handler stops there with
 * nothing further done (`ReadFailed`); the connection's read loop then ends
 * and `GameServerThread.Teardown` runs.
 */
module GameServerPackets {
  import opened Wire
  import opened JavaText
  import opened Crypt
  import opened Packets
  import opened LoginServerPackets
  import opened Registry
  import opened ServerPackets
  import opened Login

  /** How a handler ended: it ran to the end, or a read threw. */
  datatype Run = Completed | ReadFailed

  /** Inside the frame, `readS` always returns a string, and the cursor stays inside the frame. */
  lemma StringReadable(d: seq<u8>, off: nat)
    requires off <= |d|
    ensures TakeS(d, off).Some? && TakeS(d, off).value.next <= |d|
  {
    TakeSBytes(d, off);
  }

  // ================================================================ dispatch

  /** The packet classes `handlePacket` constructs. */
  datatype GameServerPacket =
    | BlowFishKeyPacket | GameServerAuthPacket | PlayerInGamePacket | PlayerLogoutPacket
    | ChangeAccessLevelPacket | PlayerAuthRequestPacket | ServerStatusPacket | PlayerTracertPacket
    | ReplyCharactersPacket | RequestSendMailPacket | RequestTempBanPacket | ChangePasswordPacket

  /** The opcode each packet class travels under. */
  function OpcodeOf(p: GameServerPacket): int
  {
    match p
    case BlowFishKeyPacket => 0x00
    case GameServerAuthPacket => 0x01
    case PlayerInGamePacket => 0x02
    case PlayerLogoutPacket => 0x03
    case ChangeAccessLevelPacket => 0x04
    case PlayerAuthRequestPacket => 0x05
    case ServerStatusPacket => 0x06
    case PlayerTracertPacket => 0x07
    case ReplyCharactersPacket => 0x08
    case RequestSendMailPacket => 0x09
    case RequestTempBanPacket => 0x0A
    case ChangePasswordPacket => 0x0B
  }

  /** The connection state in which each packet class is expected. */
  function StateOf(p: GameServerPacket): GameServerState
  {
    match p
    case BlowFishKeyPacket => Connected
    case GameServerAuthPacket => BfConnected
    case _ => Authed
  }

  /**
   * What `handlePacket` does with a frame: construct a packet (`returned`
   * tells whether it is handed back as the result), do nothing, or
   * force-close the connection with NOT_AUTHED.
   */
  datatype GameServerAction =
    | Construct(packet: GameServerPacket, returned: bool)
    | Nothing
    | CloseNotAuthed

  /**
   * `handlePacket`'s switch on the connection state and the opcode (the
   * first byte, unsigned). Mail requests are constructed only when the mail
   * system is on; `ChangePassword` is constructed but never returned.
   */
  function Dispatch(state: GameServerState, opcode: int, mailEnabled: bool): (a: GameServerAction)
    ensures a.Construct? ==> OpcodeOf(a.packet) == opcode && StateOf(a.packet) == state
    ensures a.Construct? ==> (a.returned <==> a.packet != ChangePasswordPacket)
    ensures a.Nothing? <==> state == Authed && opcode == 0x09 && !mailEnabled
    ensures a.CloseNotAuthed? <==> forall p :: !(OpcodeOf(p) == opcode && StateOf(p) == state)
  {
    match state
    case Connected =>
      if opcode == 0x00 then Construct(BlowFishKeyPacket, true) else CloseNotAuthed
    case BfConnected =>
      if opcode == 0x01 then Construct(GameServerAuthPacket, true) else CloseNotAuthed
    case Authed =>
      if opcode == 0x02 then Construct(PlayerInGamePacket, true)
      else if opcode == 0x03 then Construct(PlayerLogoutPacket, true)
      else if opcode == 0x04 then Construct(ChangeAccessLevelPacket, true)
      else if opcode == 0x05 then Construct(PlayerAuthRequestPacket, true)
      else if opcode == 0x06 then Construct(ServerStatusPacket, true)
      else if opcode == 0x07 then Construct(PlayerTracertPacket, true)
      else if opcode == 0x08 then Construct(ReplyCharactersPacket, true)
      else if opcode == 0x09 then
        if mailEnabled then Construct(RequestSendMailPacket, true)
        else assert OpcodeOf(RequestSendMailPacket) == opcode; Nothing
      else if opcode == 0x0A then Construct(RequestTempBanPacket, true)
      else if opcode == 0x0B then Construct(ChangePasswordPacket, false)
      else CloseNotAuthed
  }

  /**
   * Before authentication the channel is strict: exactly one opcode is
   * accepted in each of the two first states, and every other one closes
   * the connection.
   */
  lemma StrictBeforeAuth(state: GameServerState, opcode: int, mailEnabled: bool)
    requires state != Authed
    ensures var a := Dispatch(state, opcode, mailEnabled);
      && (state == Connected ==> (a.Construct? <==> opcode == 0x00) && (a.Construct? ==> a.packet == BlowFishKeyPacket))
      && (state == BfConnected ==> (a.Construct? <==> opcode == 0x01) && (a.Construct? ==> a.packet == GameServerAuthPacket))
      && (a.Construct? || a.CloseNotAuthed?)
  {
    var a := Dispatch(state, opcode, mailEnabled);
    if a.Construct? {
      assert OpcodeOf(a.packet) == opcode && StateOf(a.packet) == state;
    } else {
      assert !(OpcodeOf(BlowFishKeyPacket) == opcode && StateOf(BlowFishKeyPacket) == state);
      assert !(OpcodeOf(GameServerAuthPacket) == opcode && StateOf(GameServerAuthPacket) == state);
    }
  }

  // ================================================================ BlowFishKey

  /** The number of zero bytes at the front of `b`. */
  function LeadingZeros(b: seq<u8>): (n: nat)
    ensures n <= |b| && (forall k :: 0 <= k < n ==> b[k] == 0) && (n < |b| ==> b[n] != 0)
  {
    if b == [] || b[0] != 0 then 0 else 1 + LeadingZeros(b[1..])
  }

  /**
   * The key `BlowFishKey` keeps from the decrypted block: the scan for the
   * first non-zero byte, then the copy of the rest.
   */
  method StripLeadingZeros(dec: seq<u8>) returns (key: seq<u8>)
    ensures key == dec[LeadingZeros(dec)..]
    ensures |key| == |dec| - LeadingZeros(dec)
    ensures key == [] || key[0] != 0
    ensures Zeros(|dec| - |key|) + key == dec
  {
    var i := 0;
    while i < |dec|
      invariant 0 <= i <= |dec| && forall k :: 0 <= k < i ==> dec[k] == 0
    {
      if dec[i] != 0 {
        break;
      }
      i := i + 1;
    }
    key := dec[i..];
    assert dec == dec[..i] + key;
    assert dec[..i] == Zeros(i);
  }

  /** The fields of a `BlowFishKey`: a length, then that many bytes of RSA block. */
  function ParseBlowFishKey(d: seq<u8>): Option<seq<u8>>
  {
    match TakeD(d, 1)
    case None => None
    case Some(size) =>
      match TakeB(d, size.next, size.value)
      case None => None
      case Some(block) => Some(block.value)
  }

  /** A game server's `BlowFishKey` (opcode 0x00, the block's length, the block) reads back as that block. */
  lemma BlowFishKeyReadBack(block: seq<u8>, rest: seq<u8>)
    requires IsInt32(|block|)
    ensures ParseBlowFishKey([0x00] + LE32(|block|) + block + rest) == Some(block)
  {
    var d := [0x00] + LE32(|block|) + block + rest;
    AppendAssoc([0x00] + LE32(|block|), block, rest);
    ReadWrittenD([0x00], |block|, block + rest);
    ReadWrittenB([0x00] + LE32(|block|), block, rest);
  }

  /**
   * `new BlowFishKey(data, server)`. `rsa` stands for the RSA/ECB/nopadding
   * decryption with the connection's private key; `None` is the
   * `GeneralSecurityException`, which is logged and changes nothing. On
   * success the connection gets a cipher keyed with the block stripped of
   * its leading zeros, and moves to BF_CONNECTED.
   */
  method BlowFishKey(data: seq<u8>, server: GameServerThread, rsa: seq<u8> -> Option<seq<u8>>) returns (r: Run)
    modifies server`blowfish, server`loginConnectionState
    ensures r == ReadFailed <==> ParseBlowFishKey(data).None?
    ensures r == ReadFailed || rsa(ParseBlowFishKey(data).value).None? ==>
      server.blowfish == old(server.blowfish) && server.loginConnectionState == old(server.loginConnectionState)
    ensures r == Completed && rsa(ParseBlowFishKey(data).value).Some? ==>
      var dec := rsa(ParseBlowFishKey(data).value).value;
      && fresh(server.blowfish) && server.blowfish.cipher == old(server.blowfish.cipher)
      && server.blowfish.key == dec[LeadingZeros(dec)..]
      && server.loginConnectionState == BfConnected
  {
    var rd := new Reader(data);
    var size := rd.ReadD();
    if size.None? {
      return ReadFailed;
    }
    var tempKey := rd.ReadB(size.value);
    if tempKey.None? {
      return ReadFailed;
    }
    var tempDecryptKey := rsa(tempKey.value);
    if tempDecryptKey.None? {
      return Completed;
    }
    var key := StripLeadingZeros(tempDecryptKey.value);
    var crypt := new NewCrypt(server.blowfish.cipher, key);
    server.SetBlowFish(crypt);
    server.SetLoginConnectionState(BfConnected);
    return Completed;
  }

  // ================================================================ PlayerLogout

  /** The account a `PlayerLogout` names. */
  function ParsePlayerLogout(d: seq<u8>): (account: JString)
    requires |d| >= 1
  {
    StringReadable(d, 1);
    TakeS(d, 1).value.value
  }

  /** A game server's `PlayerLogout` (opcode 0x03, the account) names that account. */
  lemma PlayerLogoutReadBack(account: JString, rest: seq<u8>)
    requires forall k :: 0 <= k < |account| ==> account[k] != 0
    ensures ParsePlayerLogout([0x03] + Utf16(account) + [0, 0] + rest) == account
  {
    ReadWrittenS([0x03], account, rest);
  }

  /**
   * `new PlayerLogout(data, server)`: the account leaves the connection's
   * online set; the other accounts stay, and an account that was not online
   * changes nothing. The telnet broadcast is not part of this model.
   */
  method PlayerLogout(data: seq<u8>, server: GameServerThread)
    requires |data| >= 1
    modifies server`accountsOnGameServer
    ensures server.accountsOnGameServer == old(server.accountsOnGameServer) - {ParsePlayerLogout(data)}
  {
    var rd := new Reader(data);
    StringReadable(data, 1);
    var account := rd.ReadS();
    server.RemoveAccountOnGameServer(account.value);
  }

  // ================================================================ PlayerAuthRequest

  /** The fields of a `PlayerAuthRequest`: the account and the session key it presents. */
  datatype AuthRequestFields = AuthRequestFields(account: JString, key: SessionKey)

  /**
   * The account, then play1, play2, login1, login2; the key is built as
   * (login1, login2, play1, play2).
   */
  function ParsePlayerAuthRequest(d: seq<u8>): Option<AuthRequestFields>
    requires |d| >= 1
  {
    StringReadable(d, 1);
    var account := TakeS(d, 1).value;
    match TakeD(d, account.next)
    case None => None
    case Some(play1) =>
      match TakeD(d, play1.next)
      case None => None
      case Some(play2) =>
        match TakeD(d, play2.next)
        case None => None
        case Some(login1) =>
          match TakeD(d, login1.next)
          case None => None
          case Some(login2) =>
            Some(AuthRequestFields(account.value, SessionKey(login1.value, login2.value, play1.value, play2.value)))
  }

  /** The bytes a game server sends for a `PlayerAuthRequest`. */
  function AuthRequestBytes(account: JString, key: SessionKey): seq<u8>
  {
    [0x05] + Utf16(account) + [0, 0]
    + (LE32(key.playOkID1) + LE32(key.playOkID2) + LE32(key.loginOkID1) + LE32(key.loginOkID2))
  }

  /** A `PlayerAuthRequest` reads back as the account and the key it was written with. */
  lemma PlayerAuthRequestReadBack(account: JString, key: SessionKey, rest: seq<u8>)
    requires forall k :: 0 <= k < |account| ==> account[k] != 0
    requires IsInt32(key.loginOkID1) && IsInt32(key.loginOkID2) && IsInt32(key.playOkID1) && IsInt32(key.playOkID2)
    ensures ParsePlayerAuthRequest(AuthRequestBytes(account, key) + rest) == Some(AuthRequestFields(account, key))
  {
    AuthRequestHead(account, key, rest);
    AuthRequestBody(account, key, rest);
    ParseAuthAt(AuthRequestBytes(account, key) + rest, account, key);
  }

  /** The account of a written `PlayerAuthRequest` reads back. */
  lemma AuthRequestHead(account: JString, key: SessionKey, rest: seq<u8>)
    requires forall k :: 0 <= k < |account| ==> account[k] != 0
    ensures TakeS(AuthRequestBytes(account, key) + rest, 1) == Some(Got(account, 3 + 2 * |account|))
  {
    var body := LE32(key.playOkID1) + LE32(key.playOkID2) + LE32(key.loginOkID1) + LE32(key.loginOkID2);
    AppendAssoc([0x05] + Utf16(account) + [0, 0], body, rest);
    ReadWrittenS([0x05], account, body + rest);
  }

  /** The key bytes of a written `PlayerAuthRequest` follow the account. */
  lemma AuthRequestBody(account: JString, key: SessionKey, rest: seq<u8>)
    ensures var d := AuthRequestBytes(account, key) + rest;
      var body := LE32(key.playOkID1) + LE32(key.playOkID2) + LE32(key.loginOkID1) + LE32(key.loginOkID2);
      && 3 + 2 * |account| + 16 <= |d|
      && forall k :: 0 <= k < 16 ==> d[3 + 2 * |account| + k] == body[k]
  {
    var body := LE32(key.playOkID1) + LE32(key.playOkID2) + LE32(key.loginOkID1) + LE32(key.loginOkID2);
    var head := [0x05] + Utf16(account) + [0, 0];
    AppendAssoc(head, body, rest);
    BodyAfterHead(head, body, rest);
  }

  /** The bytes after a head are the body's. */
  lemma BodyAfterHead(head: seq<u8>, body: seq<u8>, rest: seq<u8>)
    ensures forall k :: 0 <= k < |body| ==> (head + (body + rest))[|head| + k] == body[k]
  {
  }

  /** The parse, given the account read and the four key `int`s in place after it. */
  lemma ParseAuthAt(d: seq<u8>, account: JString, key: SessionKey)
    requires IsInt32(key.loginOkID1) && IsInt32(key.loginOkID2) && IsInt32(key.playOkID1) && IsInt32(key.playOkID2)
    requires |d| >= 1 && TakeS(d, 1) == Some(Got(account, 3 + 2 * |account|)) && 3 + 2 * |account| + 16 <= |d|
    requires var body := LE32(key.playOkID1) + LE32(key.playOkID2) + LE32(key.loginOkID1) + LE32(key.loginOkID2);
      forall k :: 0 <= k < 16 ==> d[3 + 2 * |account| + k] == body[k]
    ensures ParsePlayerAuthRequest(d) == Some(AuthRequestFields(account, key))
  {
    FourInts(d, 3 + 2 * |account|, key.playOkID1, key.playOkID2, key.loginOkID1, key.loginOkID2);
  }

  /** Four `int`s written in a row read back in order. */
  lemma FourInts(d: seq<u8>, p: nat, a: int, b: int, c: int, e: int)
    requires IsInt32(a) && IsInt32(b) && IsInt32(c) && IsInt32(e) && p + 16 <= |d|
    requires forall k :: 0 <= k < 16 ==> d[p + k] == (LE32(a) + LE32(b) + LE32(c) + LE32(e))[k]
    ensures TakeD(d, p) == Some(Got(a, p + 4)) && TakeD(d, p + 4) == Some(Got(b, p + 8))
    ensures TakeD(d, p + 8) == Some(Got(c, p + 12)) && TakeD(d, p + 12) == Some(Got(e, p + 16))
  {
    var w := LE32(a) + LE32(b) + LE32(c) + LE32(e);
    assert d[p] == w[0] && d[p + 1] == w[1] && d[p + 2] == w[2] && d[p + 3] == w[3];
    IntAt(d, p, a);
    assert d[p + 4] == w[4] && d[p + 5] == w[5] && d[p + 6] == w[6] && d[p + 7] == w[7];
    IntAt(d, p + 4, b);
    assert d[p + 8] == w[8] && d[p + 9] == w[9] && d[p + 10] == w[10] && d[p + 11] == w[11];
    IntAt(d, p + 8, c);
    assert d[p + 12] == w[12] && d[p + 13] == w[13] && d[p + 14] == w[14] && d[p + 15] == w[15];
    IntAt(d, p + 12, e);
  }

  /** `readD` at a position holding the bytes of `v` gives `v`. */
  lemma IntAt(d: seq<u8>, p: nat, v: int)
    requires IsInt32(v) && p + 4 <= |d|
    requires d[p] == LE32(v)[0] && d[p + 1] == LE32(v)[1] && d[p + 2] == LE32(v)[2] && d[p + 3] == LE32(v)[3]
    ensures TakeD(d, p) == Some(Got(v, p + 4))
  {
    assert U32At(d, p) == U32At(LE32(v), 0);
    I32RoundTrip(v);
  }

  /** The reads of `PlayerAuthRequest`'s constructor, on a fresh cursor. */
  method ReadPlayerAuthRequest(data: seq<u8>) returns (req: Option<AuthRequestFields>)
    requires |data| >= 1
    ensures req == ParsePlayerAuthRequest(data)
  {
    var rd := new Reader(data);
    StringReadable(data, 1);
    var account := rd.ReadS();
    var playKey1 := rd.ReadD();
    if playKey1.None? {
      return None;
    }
    var playKey2 := rd.ReadD();
    if playKey2.None? {
      return None;
    }
    var loginKey1 := rd.ReadD();
    if loginKey1.None? {
      return None;
    }
    var loginKey2 := rd.ReadD();
    if loginKey2.None? {
      return None;
    }
    var sessionKey := SessionKey(loginKey1.value, loginKey2.value, playKey1.value, playKey2.value);
    return Some(AuthRequestFields(account.value, sessionKey));
  }

  /** The layout of a `PlayerAuthResponse` body for `account` and `response`. */
  predicate IsAuthResponse(content: seq<u8>, account: JString, response: bool)
  {
    var f := StringField(Some(account));
    && |content| % 8 == 0 && 2 + |f| + 4 <= |content| < 2 + |f| + 12
    && content[0] == 0x03 && content[1..1 + |f|] == f
    && content[1 + |f|] == (if response then 1 else 0)
    && forall k :: 2 + |f| <= k < |content| ==> content[k] == 0
  }

  /**
   * `new PlayerAuthRequest(data, server)`: the presented key is accepted
   * exactly when the client holding the account's claim has that session
   * key; an accepted account is released from the claim map. Either way one
   * `PlayerAuthResponse` goes back, and `response` is its body.
   */
  method PlayerAuthRequest(data: seq<u8>, server: GameServerThread, controller: LoginController)
    returns (r: Run, accepted: bool, response: seq<u8>)
    requires |data| >= 1
    modifies controller`loginServerClients, server`sent
    ensures r == ReadFailed <==> ParsePlayerAuthRequest(data).None?
    ensures r == ReadFailed ==>
      controller.loginServerClients == old(controller.loginServerClients) && server.sent == old(server.sent)
    ensures r == Completed ==>
      var req := ParsePlayerAuthRequest(data).value;
      var claims := old(controller.loginServerClients);
      && (accepted <==> req.account in claims && old(claims[req.account].sessionKey) == Some(req.key))
      && controller.loginServerClients == (if accepted then claims - {req.account} else claims)
      && IsAuthResponse(response, req.account, accepted)
      && server.sent == old(server.sent) + [Framed(server.blowfish.cipher, server.blowfish.key, response)]
  {
    var req := ReadPlayerAuthRequest(data);
    if req.None? {
      return ReadFailed, false, [];
    }
    accepted := Redeem(controller, req.value.account, req.value.key);
    response := RespondToAuth(server, req.value.account, accepted);
    r := Completed;
  }

  /** The key comparison of `PlayerAuthRequest` and the release of an accepted account's claim. */
  method Redeem(controller: LoginController, account: JString, presented: SessionKey) returns (accepted: bool)
    modifies controller`loginServerClients
    ensures var claims := old(controller.loginServerClients);
      && (accepted <==> account in claims && old(claims[account].sessionKey) == Some(presented))
      && controller.loginServerClients == (if accepted then claims - {account} else claims)
  {
    var key := controller.GetKeyForAccount(account);
    accepted := key.Some? && key.value == presented;
    if accepted {
      controller.RemoveAuthedLoginClient(Some(account));
    }
  }

  /** The `PlayerAuthResponse` sent back on the connection. */
  method RespondToAuth(server: GameServerThread, account: JString, accepted: bool) returns (response: seq<u8>)
    modifies server`sent
    ensures IsAuthResponse(response, account, accepted)
    ensures server.sent == old(server.sent) + [Framed(server.blowfish.cipher, server.blowfish.key, response)]
  {
    response := PlayerAuthResponse(Some(account), accepted);
    server.SendPacket(response);
  }

  // ================================================================ RequestTempBan

  /** The fields of a `RequestTempBan`; the reason is read only when its flag is set. */
  datatype TempBan = TempBan(accountName: JString, ip: JString, banTime: int, banReason: Option<JString>)

  function ParseRequestTempBan(d: seq<u8>): Option<TempBan>
    requires |d| >= 1
  {
    StringReadable(d, 1);
    var account := TakeS(d, 1).value;
    StringReadable(d, account.next);
    var ip := TakeS(d, account.next).value;
    match TakeQ(d, ip.next)
    case None => None
    case Some(banTime) =>
      match TakeC(d, banTime.next)
      case None => None
      case Some(flag) =>
        if flag.value == 0 then Some(TempBan(account.value, ip.value, banTime.value, None))
        else
          StringReadable(d, flag.next);
          Some(TempBan(account.value, ip.value, banTime.value, Some(TakeS(d, flag.next).value.value)))
  }

  /**
   * `new RequestTempBan(data)`: after the account-data row (a database
   * write, not part of this model) the address is banned with the ban time
   * as its absolute expiry; `resolve` stands for `InetAddress.getByName`, and
   * an unknown host is ignored. An existing ban is kept.
   */
  method RequestTempBan(data: seq<u8>, controller: LoginController, resolve: JString -> Option<IPv4>) returns (r: Run)
    requires |data| >= 1 && controller.Valid()
    modifies controller`bannedIps
    ensures controller.Valid()
    ensures r == ReadFailed <==> ParseRequestTempBan(data).None?
    ensures r == ReadFailed ==> controller.bannedIps == old(controller.bannedIps)
    ensures r == Completed ==>
      var ban := ParseRequestTempBan(data).value;
      match resolve(ban.ip)
      case None => controller.bannedIps == old(controller.bannedIps)
      case Some(a) =>
        controller.bannedIps == if ByAddress(a) in old(controller.bannedIps) then old(controller.bannedIps)
                                else old(controller.bannedIps)[ByAddress(a) := ban.banTime]
  {
    var rd := new Reader(data);
    StringReadable(data, 1);
    var accountName := rd.ReadS();
    StringReadable(data, rd.off);
    var ip := rd.ReadS();
    var banTime := rd.ReadQ();
    if banTime.None? {
      return ReadFailed;
    }
    var haveReason := rd.ReadC();
    if haveReason.None? {
      return ReadFailed;
    }
    if haveReason.value != 0 {
      StringReadable(data, rd.off);
      var banReason := rd.ReadS();
    }
    var _ := controller.AddBanForText(ip.value, banTime.value, resolve);
    r := Completed;
  }

  // ================================================================ ServerStatus

  const SERVER_LIST_STATUS := 0x01
  const SERVER_TYPE := 0x02
  const SERVER_LIST_SQUARE_BRACKET := 0x03
  const MAX_PLAYERS := 0x04
  const TEST_SERVER := 0x05
  const SERVER_AGE := 0x06
  const ON := 0x01
  const OFF := 0x00

  /** The attributes of a registry entry that a `ServerStatus` can set. */
  datatype StatusAttrs = StatusAttrs(status: int, serverType: int, showingBrackets: bool, maxPlayers: int, ageLimit: int)

  function Attrs(g: GameServerInfo): StatusAttrs
    reads g
  {
    StatusAttrs(g.status, g.serverType, g.isShowingBrackets, g.maxPlayers, g.ageLimit)
  }

  /** One `(type, value)` pair of the switch; any other type, `TEST_SERVER` included, changes nothing. */
  function ApplyPair(a: StatusAttrs, p: (int, int)): StatusAttrs
  {
    var (t, v) := p;
    if t == SERVER_LIST_STATUS then a.(status := v)
    else if t == SERVER_LIST_SQUARE_BRACKET then a.(showingBrackets := v == ON)
    else if t == MAX_PLAYERS then a.(maxPlayers := v)
    else if t == SERVER_TYPE then a.(serverType := v)
    else if t == SERVER_AGE then a.(ageLimit := v)
    else a
  }

  /** The pairs applied in the order they were read. */
  function Apply(a: StatusAttrs, ps: seq<(int, int)>): StatusAttrs
    decreases |ps|
  {
    if ps == [] then a else ApplyPair(Apply(a, ps[..|ps| - 1]), ps[|ps| - 1])
  }

  lemma Regroup<T>(a: seq<T>, p: T, x: seq<T>)
    ensures a + ([p] + x) == (a + [p]) + x
  {
  }

  lemma ApplySnoc(a: StatusAttrs, ps: seq<(int, int)>, p: (int, int))
    ensures Apply(a, ps + [p]) == ApplyPair(Apply(a, ps), p)
  {
    assert (ps + [p])[..|ps|] == ps;
  }

  /** The last pair of a known type decides that attribute. */
  lemma {:induction false} ApplyLastWins(a: StatusAttrs, ps: seq<(int, int)>, k: int)
    requires 0 <= k < |ps|
    requires forall j :: k < j < |ps| ==> ps[j].0 != ps[k].0
    ensures var b := Apply(a, ps);
      && (ps[k].0 == SERVER_LIST_STATUS ==> b.status == ps[k].1)
      && (ps[k].0 == SERVER_TYPE ==> b.serverType == ps[k].1)
      && (ps[k].0 == SERVER_LIST_SQUARE_BRACKET ==> b.showingBrackets == (ps[k].1 == ON))
      && (ps[k].0 == MAX_PLAYERS ==> b.maxPlayers == ps[k].1)
      && (ps[k].0 == SERVER_AGE ==> b.ageLimit == ps[k].1)
    decreases |ps|
  {
    if k < |ps| - 1 {
      var init := ps[..|ps| - 1];
      assert forall j :: k < j < |init| ==> init[j] == ps[j];
      ApplyLastWins(a, init, k);
      assert ps[|ps| - 1].0 != ps[k].0;
    }
  }

  /** An attribute that no pair names keeps its value. */
  lemma {:induction false} ApplyUntouched(a: StatusAttrs, ps: seq<(int, int)>)
    ensures var b := Apply(a, ps);
      && ((forall j :: 0 <= j < |ps| ==> ps[j].0 != SERVER_LIST_STATUS) ==> b.status == a.status)
      && ((forall j :: 0 <= j < |ps| ==> ps[j].0 != SERVER_TYPE) ==> b.serverType == a.serverType)
      && ((forall j :: 0 <= j < |ps| ==> ps[j].0 != SERVER_LIST_SQUARE_BRACKET) ==> b.showingBrackets == a.showingBrackets)
      && ((forall j :: 0 <= j < |ps| ==> ps[j].0 != MAX_PLAYERS) ==> b.maxPlayers == a.maxPlayers)
      && ((forall j :: 0 <= j < |ps| ==> ps[j].0 != SERVER_AGE) ==> b.ageLimit == a.ageLimit)
    decreases |ps|
  {
    if ps != [] {
      var init := ps[..|ps| - 1];
      assert forall j :: 0 <= j < |init| ==> init[j] == ps[j];
      ApplyUntouched(a, init);
    }
  }

  /**
   * Up to `n` `(type, value)` pairs of `int`s read from `off`: the pairs
   * read in full, and whether all `n` were (a read past the end throws).
   */
  function TakePairs(d: seq<u8>, off: nat, n: int): (r: (seq<(int, int)>, bool))
    requires off <= |d|
    ensures r.1 <==> n <= 0 || off + 8 * n <= |d|
    decreases n
  {
    if n <= 0 then ([], true)
    else if off + 8 > |d| then ([], false)
    else
      var rest := TakePairs(d, off + 8, n - 1);
      ([(I32At(d, off), I32At(d, off + 4))] + rest.0, rest.1)
  }

  /** All `n` pairs are read exactly when they fit; a short read stops at the last whole pair. */
  lemma {:induction false} TakePairsCount(d: seq<u8>, off: nat, n: int)
    requires off <= |d|
    ensures var r := TakePairs(d, off, n);
      && (r.1 ==> |r.0| == if n <= 0 then 0 else n)
      && (!r.1 ==> off + 8 * |r.0| <= |d| < off + 8 * |r.0| + 8)
    decreases n
  {
    if n > 0 && off + 8 <= |d| {
      TakePairsCount(d, off + 8, n - 1);
      TakePairsStep(d, off, n);
    }
  }

  /** The pairs read are the `int`s at `off`, 8 bytes apart. */
  lemma {:induction false} TakePairsValues(d: seq<u8>, off: nat, n: int)
    requires off <= |d|
    ensures var r := TakePairs(d, off, n);
      && off + 8 * |r.0| <= |d|
      && forall k :: 0 <= k < |r.0| ==> r.0[k] == (I32At(d, off + 8 * k), I32At(d, off + 8 * k + 4))
    decreases n
  {
    if n > 0 && off + 8 <= |d| {
      TakePairsValues(d, off + 8, n - 1);
      var r := TakePairs(d, off, n);
      var rest := TakePairs(d, off + 8, n - 1);
      assert r.0 == [(I32At(d, off), I32At(d, off + 4))] + rest.0;
      forall k | 1 <= k < |r.0|
        ensures r.0[k] == (I32At(d, off + 8 * k), I32At(d, off + 8 * k + 4))
      {
        assert r.0[k] == rest.0[k - 1];
        assert off + 8 * k == (off + 8) + 8 * (k - 1);
      }
    }
  }

  /** One step of `TakePairs`: a whole pair, then the rest. */
  lemma TakePairsStep(d: seq<u8>, off: nat, n: int)
    requires off + 8 <= |d| && n > 0
    ensures var rest := TakePairs(d, off + 8, n - 1);
      TakePairs(d, off, n) == ([(I32At(d, off), I32At(d, off + 4))] + rest.0, rest.1)
  {
  }

  /** What a `ServerStatus` frame carries: the pairs read, and whether the count and all of them were read. */
  function ParseServerStatus(d: seq<u8>): (seq<(int, int)>, bool)
    requires |d| >= 1
  {
    match TakeD(d, 1)
    case None => ([], false)
    case Some(size) => TakePairs(d, size.next, size.value)
  }

  /** The pairs written as two `int`s each, followed by `rest`. */
  function PairsThen(ps: seq<(int, int)>, rest: seq<u8>): seq<u8>
    decreases |ps|
  {
    if ps == [] then rest else LE32(ps[0].0) + (LE32(ps[0].1) + PairsThen(ps[1..], rest))
  }

  /** Written pairs read back. */
  lemma {:induction false} PairsReadBack(prefix: seq<u8>, ps: seq<(int, int)>, rest: seq<u8>)
    requires forall k :: 0 <= k < |ps| ==> IsInt32(ps[k].0) && IsInt32(ps[k].1)
    ensures TakePairs(prefix + PairsThen(ps, rest), |prefix|, |ps|) == (ps, true)
    decreases |ps|
  {
    if ps != [] {
      var (t, v) := ps[0];
      var more := PairsThen(ps[1..], rest);
      var next := prefix + LE32(t) + LE32(v);
      var d := prefix + PairsThen(ps, rest);
      assert PairsThen(ps, rest) == LE32(t) + (LE32(v) + more);
      PairWritten(prefix, t, v, more);
      assert d == next + more && |next| == |prefix| + 8;
      PairsReadBack(next, ps[1..], rest);
      assert TakePairs(d, |prefix| + 8, |ps| - 1) == (ps[1..], true);
      assert TakePairs(d, |prefix|, |ps|) == ([(t, v)] + ps[1..], true);
      assert [(t, v)] + ps[1..] == ps;
    }
  }

  /** The two `int`s of a written pair read back, and what follows them starts 8 bytes on. */
  lemma PairWritten(prefix: seq<u8>, t: int, v: int, more: seq<u8>)
    requires IsInt32(t) && IsInt32(v)
    ensures var d := prefix + (LE32(t) + (LE32(v) + more));
      && d == prefix + LE32(t) + LE32(v) + more
      && |prefix| + 8 <= |d| && I32At(d, |prefix|) == t && I32At(d, |prefix| + 4) == v
  {
    AppendAssoc(prefix, LE32(t), LE32(v) + more);
    ReadWrittenD(prefix, t, LE32(v) + more);
    AppendAssoc(prefix + LE32(t), LE32(v), more);
    ReadWrittenD(prefix + LE32(t), v, more);
  }

  /** A `ServerStatus` written with its count reads back as its pairs, all of them. */
  lemma ServerStatusReadBack(ps: seq<(int, int)>, rest: seq<u8>)
    requires IsInt32(|ps|)
    requires forall k :: 0 <= k < |ps| ==> IsInt32(ps[k].0) && IsInt32(ps[k].1)
    ensures ParseServerStatus([0x06] + LE32(|ps|) + PairsThen(ps, rest)) == (ps, true)
  {
    ReadWrittenD([0x06], |ps|, PairsThen(ps, rest));
    PairsReadBack([0x06] + LE32(|ps|), ps, rest);
  }

  /**
   * `ServerStatus`: the entry registered under the connection's server id
   * takes each pair as it is read; without an entry nothing is read. A
   * read past the end throws after the pairs before it have been applied.
   */
  method ServerStatus(data: seq<u8>, server: GameServerThread, table: GameServerTable) returns (r: Run)
    requires |data| >= 1
    modifies table.gameServerTable.Values
    ensures old(server.ServerId()) !in table.gameServerTable ==>
      r == Completed && forall h :: h in table.gameServerTable.Values ==> unchanged(h)
    ensures old(server.ServerId()) in table.gameServerTable ==>
      var g := table.gameServerTable[old(server.ServerId())];
      && (r == Completed <==> ParseServerStatus(data).1)
      && Attrs(g) == Apply(old(Attrs(g)), ParseServerStatus(data).0)
      && g.id == old(g.id) && g.isAuthed == old(g.isAuthed) && g.gst == old(g.gst)
      && g.addrs == old(g.addrs) && g.port == old(g.port)
      && forall h :: h in table.gameServerTable.Values && h != g ==> unchanged(h)
  {
    var gsi := table.RegisteredGameServerById(server.ServerId());
    if gsi == null {
      return Completed;
    }
    var g: GameServerInfo := gsi;
    var rd := new Reader(data);
    var size := rd.ReadD();
    if size.None? {
      return ReadFailed;
    }
    r := ApplyPairs(g, rd, size.value);
  }

  /** The loop of `ServerStatus`: `n` pairs read from the cursor, each applied to `g` as it is read. */
  method ApplyPairs(g: GameServerInfo, rd: Reader, n: int) returns (r: Run)
    requires rd.off <= |rd.data|
    modifies rd, g`status, g`isShowingBrackets, g`maxPlayers, g`serverType, g`ageLimit
    ensures var (pairs, complete) := TakePairs(rd.data, old(rd.off), n);
      && (r == Completed <==> complete)
      && Attrs(g) == Apply(old(Attrs(g)), pairs)
  {
    var i := 0;
    ghost var done: seq<(int, int)> := [];
    ghost var all := TakePairs(rd.data, rd.off, n);
    assert all.0 == done + TakePairs(rd.data, rd.off, n - i).0;
    while i < n
      invariant rd.off <= |rd.data|
      invariant all.0 == done + TakePairs(rd.data, rd.off, n - i).0
      invariant all.1 == TakePairs(rd.data, rd.off, n - i).1
      invariant Attrs(g) == Apply(old(Attrs(g)), done)
      decreases n - i
    {
      ghost var tail := TakePairs(rd.data, rd.off, n - i);
      var t, v := ReadPair(rd, n - i);
      if v.None? {
        assert done + [] == done;
        return ReadFailed;
      }
      ApplyOne(g, t, v.value);
      ApplySnoc(old(Attrs(g)), done, (t, v.value));
      Regroup(done, (t, v.value), TakePairs(rd.data, rd.off, n - i - 1).0);
      done := done + [(t, v.value)];
      i := i + 1;
    }
    assert done + [] == done;
    r := Completed;
  }

  /** The two `readD`s of one pair, against `TakePairs` for the `n` pairs still to come. */
  method ReadPair(rd: Reader, ghost n: int) returns (t: int, v: Option<int>)
    requires rd.off <= |rd.data| && n > 0
    modifies rd
    ensures v.None? ==> TakePairs(rd.data, old(rd.off), n) == ([], false)
    ensures v.Some? ==> rd.off <= |rd.data|
    ensures v.Some? ==>
      TakePairs(rd.data, old(rd.off), n)
      == ([(t, v.value)] + TakePairs(rd.data, rd.off, n - 1).0, TakePairs(rd.data, rd.off, n - 1).1)
  {
    var t0 := rd.ReadD();
    if t0.None? {
      return 0, None;
    }
    v := rd.ReadD();
    t := t0.value;
    if v.Some? {
      TakePairsStep(rd.data, old(rd.off), n);
    }
  }

  /** The `switch` of `ServerStatus` on one entry. */
  method ApplyOne(g: GameServerInfo, t: int, v: int)
    modifies g`status, g`isShowingBrackets, g`maxPlayers, g`serverType, g`ageLimit
    ensures Attrs(g) == ApplyPair(old(Attrs(g)), (t, v))
  {
    if t == SERVER_LIST_STATUS {
      g.status := v;
    } else if t == SERVER_LIST_SQUARE_BRACKET {
      g.isShowingBrackets := v == ON;
    } else if t == MAX_PLAYERS {
      g.maxPlayers := v;
    } else if t == SERVER_TYPE {
      g.serverType := v;
    } else if t == SERVER_AGE {
      g.ageLimit := v;
    }
  }

  // ================================================================ GameServerAuth

  /** The fixed head of a `GameServerAuth`: the desired id, the two flags, the port and the player limit. */
  datatype AuthHead = AuthHead(desiredId: int, acceptAlternativeId: bool, hostReserved: bool, port: int, maxPlayers: int)

  /** All the fields of a `GameServerAuth`; `hosts` alternates subnets and advertised addresses. */
  datatype AuthRequest = AuthRequest(head: AuthHead, hexId: seq<u8>, hosts: seq<JString>)

  /** `readC` three times (the flags are non-zero tests), `readH`, `readD`. */
  function TakeAuthHead(d: seq<u8>, off: nat): (r: Option<Got<AuthHead>>)
    ensures r.Some? ==> r.value.next == off + 9 && r.value.next <= |d|
    ensures r.Some? ==> 0 <= r.value.value.desiredId < 0x100 && 0 <= r.value.value.port < TWO16
  {
    match TakeC(d, off)
    case None => None
    case Some(id) =>
      match TakeC(d, id.next)
      case None => None
      case Some(alt) =>
        match TakeC(d, alt.next)
        case None => None
        case Some(reserved) =>
          match TakeH(d, reserved.next)
          case None => None
          case Some(port) =>
            match TakeD(d, port.next)
            case None => None
            case Some(max) =>
              Some(Got(AuthHead(id.value, alt.value != 0, reserved.value != 0, port.value, max.value), max.next))
  }

  /** `readD` for the length, then `readB` of that many bytes. */
  function TakeHexId(d: seq<u8>, off: nat): (r: Option<Got<seq<u8>>>)
    ensures r.Some? ==> r.value.next == off + 4 + |r.value.value| <= |d|
  {
    match TakeD(d, off)
    case None => None
    case Some(size) => TakeB(d, size.next, size.value)
  }

  /** `n` strings read with `readS`; inside the frame every read returns a string. */
  function TakeStrings(d: seq<u8>, off: nat, n: nat): (r: seq<JString>)
    requires off <= |d|
    ensures |r| == n
    decreases n
  {
    if n == 0 then []
    else
      StringReadable(d, off);
      var s := TakeS(d, off).value;
      [s.value] + TakeStrings(d, s.next, n - 1)
  }

  /**
   * `readD` for the number of host pairs, doubled in 32-bit arithmetic;
   * a negative count throws when the array is allocated.
   */
  function TakeHosts(d: seq<u8>, off: nat): (r: Option<seq<JString>>)
    requires off <= |d|
    ensures r.Some? ==> |r.value| % 2 == 0
  {
    match TakeD(d, off)
    case None => None
    case Some(count) =>
      var n := Wrap32(2 * count.value);
      if n < 0 then None
      else
        DoubledEven(count.value);
        Some(TakeStrings(d, count.next, n))
  }

  /** A 32-bit doubling is even. */
  lemma DoubledEven(c: int)
    ensures Wrap32(2 * c) % 2 == 0
  {
    var r := Wrap32(2 * c);
    var q := (r - 2 * c) / TWO32;
    assert r == 2 * c + q * TWO32;
    assert r == 2 * (c + q * 0x8000_0000);
  }

  /** The fields of `GameServerAuth`'s constructor, in the order it reads them from cursor 1. */
  function ParseGameServerAuth(d: seq<u8>): (r: Option<AuthRequest>)
    requires |d| >= 1
    ensures r.Some? ==> |r.value.hosts| % 2 == 0
    ensures r.Some? ==> 0 <= r.value.head.desiredId < 0x100 && 0 <= r.value.head.port < TWO16
    ensures r.Some? ==> IsInt32(r.value.head.maxPlayers)
  {
    match TakeAuthHead(d, 1)
    case None => None
    case Some(h) =>
      match TakeHexId(d, h.next)
      case None => None
      case Some(x) =>
        match TakeHosts(d, x.next)
        case None => None
        case Some(hosts) => Some(AuthRequest(h.value, x.value, hosts))
  }

  /** The head reads, on a cursor. */
  method ReadAuthHead(rd: Reader) returns (h: Option<AuthHead>)
    modifies rd
    ensures match TakeAuthHead(rd.data, old(rd.off))
      case None => h.None?
      case Some(g) => h == Some(g.value) && rd.off == g.next
  {
    var id := rd.ReadC();
    if id.None? {
      return None;
    }
    var alt := rd.ReadC();
    if alt.None? {
      return None;
    }
    var reserved := rd.ReadC();
    if reserved.None? {
      return None;
    }
    var port := rd.ReadH();
    if port.None? {
      return None;
    }
    var max := rd.ReadD();
    if max.None? {
      return None;
    }
    h := Some(AuthHead(id.value, alt.value != 0, reserved.value != 0, port.value, max.value));
  }

  /** The hex id reads, on a cursor. */
  method ReadHexId(rd: Reader) returns (x: Option<seq<u8>>)
    modifies rd
    ensures match TakeHexId(rd.data, old(rd.off))
      case None => x.None?
      case Some(g) => x == Some(g.value) && rd.off == g.next
  {
    var size := rd.ReadD();
    if size.None? {
      return None;
    }
    x := rd.ReadB(size.value);
  }

  /** The loop of `readS` calls, on a cursor. */
  method ReadStrings(rd: Reader, n: nat) returns (hosts: seq<JString>)
    requires rd.off <= |rd.data|
    modifies rd
    ensures hosts == TakeStrings(rd.data, old(rd.off), n)
  {
    hosts := [];
    var i := 0;
    while i < n
      invariant 0 <= i <= n && rd.off <= |rd.data|
      invariant hosts + TakeStrings(rd.data, rd.off, n - i) == TakeStrings(rd.data, old(rd.off), n)
      decreases n - i
    {
      StringReadable(rd.data, rd.off);
      var s := rd.ReadS();
      Regroup(hosts, s.value, TakeStrings(rd.data, rd.off, n - i - 1));
      hosts := hosts + [s.value];
      i := i + 1;
    }
    assert hosts + [] == hosts;
  }

  /** The host count and the host strings, on a cursor. */
  method ReadHosts(rd: Reader) returns (hosts: Option<seq<JString>>)
    requires rd.off <= |rd.data|
    modifies rd
    ensures hosts == TakeHosts(rd.data, old(rd.off))
  {
    var count := rd.ReadD();
    if count.None? {
      return None;
    }
    var n := Wrap32(2 * count.value);
    if n < 0 {
      return None;
    }
    var strings := ReadStrings(rd, n);
    hosts := Some(strings);
  }

  /** The reads of `GameServerAuth`'s constructor, on a fresh cursor. */
  method ReadGameServerAuth(data: seq<u8>) returns (req: Option<AuthRequest>)
    requires |data| >= 1
    ensures req == ParseGameServerAuth(data)
  {
    var rd := new Reader(data);
    var h := ReadAuthHead(rd);
    if h.None? {
      return None;
    }
    var x := ReadHexId(rd);
    if x.None? {
      return None;
    }
    var hosts := ReadHosts(rd);
    if hosts.None? {
      return None;
    }
    req := Some(AuthRequest(h.value, x.value, hosts.value));
  }

  /** The head as a game server writes it: three bytes, a short, an `int`. */
  function AuthHeadBytes(h: AuthHead): (r: seq<u8>)
    ensures |r| == 9
  {
    [Low8(h.desiredId), if h.acceptAlternativeId then 1 else 0, if h.hostReserved then 1 else 0]
    + LE16(h.port) + LE32(h.maxPlayers)
  }

  /** A string `writeS` can write so that `readS` gives it back: no zero unit inside. */
  predicate NoZero(t: JString)
  {
    forall k :: 0 <= k < |t| ==> t[k] != 0
  }

  /** The host strings, each followed by its zero unit, then `rest`. */
  function StringsThen(hosts: seq<JString>, rest: seq<u8>): seq<u8>
    decreases |hosts|
  {
    if hosts == [] then rest else Utf16(hosts[0]) + ([0, 0] + StringsThen(hosts[1..], rest))
  }

  /** A whole `GameServerAuth` frame body as a game server writes it, with `|hosts| / 2` as the pair count. */
  function GameServerAuthBytes(req: AuthRequest, rest: seq<u8>): seq<u8>
  {
    [0x01] + (AuthHeadBytes(req.head)
      + (LE32(|req.hexId|) + (req.hexId + (LE32(|req.hosts| / 2) + StringsThen(req.hosts, rest)))))
  }

  /** A written head reads back. */
  lemma AuthHeadReadBack(prefix: seq<u8>, h: AuthHead, more: seq<u8>)
    requires 0 <= h.desiredId < 0x100 && 0 <= h.port < TWO16 && IsInt32(h.maxPlayers)
    ensures TakeAuthHead(prefix + (AuthHeadBytes(h) + more), |prefix|) == Some(Got(h, |prefix| + 9))
  {
    var d := prefix + (AuthHeadBytes(h) + more);
    var p := |prefix|;
    var x := AuthHeadBytes(h);
    assert forall k :: 0 <= k < 9 ==> d[p + k] == x[k];
    assert d[p + 3] == LE16(h.port)[0] && d[p + 4] == LE16(h.port)[1];
    U16RoundTrip(h.port);
    assert U16At(d, p + 3) == U16At(LE16(h.port), 0);
    assert d[p + 5] == LE32(h.maxPlayers)[0] && d[p + 6] == LE32(h.maxPlayers)[1];
    assert d[p + 7] == LE32(h.maxPlayers)[2] && d[p + 8] == LE32(h.maxPlayers)[3];
    IntAt(d, p + 5, h.maxPlayers);
  }

  /** A written hex id reads back, and what follows starts after it. */
  lemma HexIdReadBack(prefix: seq<u8>, hex: seq<u8>, more: seq<u8>)
    requires IsInt32(|hex|)
    ensures var d := prefix + (LE32(|hex|) + (hex + more));
      && d == (prefix + LE32(|hex|) + hex) + more
      && TakeHexId(d, |prefix|) == Some(Got(hex, |prefix| + 4 + |hex|))
  {
    AppendAssoc(prefix, LE32(|hex|), hex + more);
    ReadWrittenD(prefix, |hex|, hex + more);
    AppendAssoc(prefix + LE32(|hex|), hex, more);
    ReadWrittenB(prefix + LE32(|hex|), hex, more);
  }

  /** Written strings read back. */
  lemma {:induction false} StringsReadBack(prefix: seq<u8>, hosts: seq<JString>, rest: seq<u8>)
    requires forall i :: 0 <= i < |hosts| ==> NoZero(hosts[i])
    ensures |prefix| <= |prefix + StringsThen(hosts, rest)|
    ensures TakeStrings(prefix + StringsThen(hosts, rest), |prefix|, |hosts|) == hosts
    decreases |hosts|
  {
    if hosts != [] {
      var next := prefix + Utf16(hosts[0]) + [0, 0];
      StringsHead(prefix, hosts, rest);
      StringsReadBack(next, hosts[1..], rest);
      var d := prefix + StringsThen(hosts, rest);
      StringsStep(d, |prefix|, |hosts|, hosts[0], |next|);
      var more := StringsThen(hosts[1..], rest);
      assert d == next + more;
      assert TakeStrings(next + more, |next|, |hosts[1..]|) == hosts[1..];
      assert TakeStrings(d, |next|, |hosts| - 1) == hosts[1..];
      assert hosts == [hosts[0]] + hosts[1..];
    }
  }

  /** The first written string reads back, and the others follow it. */
  lemma StringsHead(prefix: seq<u8>, hosts: seq<JString>, rest: seq<u8>)
    requires hosts != [] && NoZero(hosts[0])
    ensures var d := prefix + StringsThen(hosts, rest);
      var next := prefix + Utf16(hosts[0]) + [0, 0];
      && d == next + StringsThen(hosts[1..], rest)
      && |next| <= |d| && TakeS(d, |prefix|) == Some(Got(hosts[0], |next|))
  {
    StringThen(prefix, hosts[0], StringsThen(hosts[1..], rest));
  }

  /** One step of `TakeStrings`: the string at `off`, then the rest from after it. */
  lemma StringsStep(d: seq<u8>, off: nat, n: nat, t: JString, next: nat)
    requires off <= |d| && next <= |d| && n > 0 && TakeS(d, off) == Some(Got(t, next))
    ensures TakeStrings(d, off, n) == [t] + TakeStrings(d, next, n - 1)
  {
  }

  /** One written string reads back, and what follows starts after its zero unit. */
  lemma StringThen(prefix: seq<u8>, t: JString, more: seq<u8>)
    requires NoZero(t)
    ensures var d := prefix + (Utf16(t) + ([0, 0] + more));
      && d == (prefix + Utf16(t) + [0, 0]) + more
      && TakeS(d, |prefix|) == Some(Got(t, |prefix| + 2 * |t| + 2))
  {
    AppendAssoc(prefix, Utf16(t), [0, 0] + more);
    AppendAssoc(prefix + Utf16(t), [0, 0], more);
    ReadWrittenS(prefix, t, more);
  }

  /** The written pair count and hosts read back. */
  lemma HostsReadBack(prefix: seq<u8>, hosts: seq<JString>, rest: seq<u8>)
    requires |hosts| % 2 == 0 && |hosts| < 0x8000_0000
    requires forall i :: 0 <= i < |hosts| ==> NoZero(hosts[i])
    ensures var d := prefix + (LE32(|hosts| / 2) + StringsThen(hosts, rest));
      |prefix| <= |d| && TakeHosts(d, |prefix|) == Some(hosts)
  {
    var d := prefix + (LE32(|hosts| / 2) + StringsThen(hosts, rest));
    AppendAssoc(prefix, LE32(|hosts| / 2), StringsThen(hosts, rest));
    ReadWrittenD(prefix, |hosts| / 2, StringsThen(hosts, rest));
    assert Wrap32(2 * (|hosts| / 2)) == |hosts|;
    StringsReadBack(prefix + LE32(|hosts| / 2), hosts, rest);
  }

  /** A `GameServerAuth` written by a game server reads back as the request it was written from. */
  lemma GameServerAuthReadBack(req: AuthRequest, rest: seq<u8>)
    requires 0 <= req.head.desiredId < 0x100 && 0 <= req.head.port < TWO16 && IsInt32(req.head.maxPlayers)
    requires IsInt32(|req.hexId|) && |req.hosts| % 2 == 0 && |req.hosts| < 0x8000_0000
    requires forall i :: 0 <= i < |req.hosts| ==> NoZero(req.hosts[i])
    ensures ParseGameServerAuth(GameServerAuthBytes(req, rest)) == Some(req)
  {
    var tail := LE32(|req.hosts| / 2) + StringsThen(req.hosts, rest);
    var m1 := LE32(|req.hexId|) + (req.hexId + tail);
    var d := GameServerAuthBytes(req, rest);
    AuthHeadReadBack([0x01], req.head, m1);
    AppendAssoc([0x01], AuthHeadBytes(req.head), m1);
    HexIdReadBack([0x01] + AuthHeadBytes(req.head), req.hexId, tail);
    HostsReadBack([0x01] + AuthHeadBytes(req.head) + LE32(|req.hexId|) + req.hexId, req.hosts, rest);
  }

  /** How `handleRegProcess` settles a request. */
  datatype Registration =
    | Reattach        // the entry under the desired id: same hex id, not connected
    | NewOnFreeId     // a new entry under a configured id that has none
    | NewOnDesiredId  // a new entry under the desired id
    | Refuse(reason: int)

  /**
   * The decision of `handleRegProcess`. `entry` holds the hex id and the
   * authed flag of the entry under the desired id, if there is one;
   * `freeId` says whether some configured id has no entry yet.
   */
  function Resolve(entry: Option<(seq<u8>, bool)>, hexId: seq<u8>, acceptNew: bool, acceptAlternativeId: bool,
                   freeId: bool): (r: Registration)
    ensures r == Reattach <==> entry == Some((hexId, false))
    ensures r == Refuse(REASON_ALREADY_LOGGED_IN) <==> entry == Some((hexId, true))
    ensures r == NewOnDesiredId <==> entry.None? && acceptNew
    ensures r == NewOnFreeId <==> entry.Some? && entry.value.0 != hexId && acceptNew && acceptAlternativeId && freeId
    ensures r == Refuse(REASON_NO_FREE_ID) <==>
      entry.Some? && entry.value.0 != hexId && acceptNew && acceptAlternativeId && !freeId
    ensures r.Refuse? ==> r.reason in {REASON_WRONG_HEXID, REASON_NO_FREE_ID, REASON_ALREADY_LOGGED_IN}
  {
    match entry
    case Some((registeredHexId, authed)) =>
      if registeredHexId == hexId then
        if authed then Refuse(REASON_ALREADY_LOGGED_IN) else Reattach
      else if acceptNew && acceptAlternativeId then
        if freeId then NewOnFreeId else Refuse(REASON_NO_FREE_ID)
      else Refuse(REASON_WRONG_HEXID)
    case None =>
      if acceptNew then NewOnDesiredId else Refuse(REASON_WRONG_HEXID)
  }

  /** The decision `handleRegProcess` takes for `req` against the table as it stands. */
  ghost function Pending(table: GameServerTable, req: AuthRequest, acceptNew: bool): Registration
    reads table, table.gameServerTable.Values
  {
    var id := req.head.desiredId;
    var entry :=
      if id in table.gameServerTable then Some((table.gameServerTable[id].hexId, table.gameServerTable[id].isAuthed))
      else None;
    var freeId := exists k :: k in table.serverNames && k !in table.gameServerTable;
    Resolve(entry, req.hexId, acceptNew, req.head.acceptAlternativeId, freeId)
  }

  /** The connection is attached to an authed entry carrying the request's hex id, port, hosts and limit. */
  ghost predicate AttachedAs(server: GameServerThread, req: AuthRequest, subnetOk: JString -> bool)
    reads server, server.gsi
  {
    && server.gsi != null && server.gsi.gst == server && server.gsi.isAuthed
    && server.gsi.hexId == req.hexId && server.gsi.port == req.head.port
    && server.gsi.maxPlayers == req.head.maxPlayers && server.gsi.addrs == HostPairs(req.hosts, subnetOk)
  }

  /**
   * `handleRegProcess`: an entry is attached to the connection, reused or
   * new, or the connection is force-closed with the reason.
   */
  method HandleRegProcess(server: GameServerThread, table: GameServerTable, req: AuthRequest, acceptNew: bool,
                          subnetOk: JString -> bool) returns (ok: bool)
    requires table.Valid()
    modifies table`gameServerTable, table.gameServerTable.Values, server`gsi, server`sent, server`closed
    ensures ok <==> !old(Pending(table, req, acceptNew)).Refuse?
    ensures !ok ==>
      && server.closed
      && server.sent == old(server.sent)
         + [Framed(server.blowfish.cipher, server.blowfish.key, FailContent(old(Pending(table, req, acceptNew)).reason))]
      && server.gsi == old(server.gsi) && table.gameServerTable == old(table.gameServerTable)
    ensures ok ==> AttachedAs(server, req, subnetOk) && server.sent == old(server.sent) && server.closed == old(server.closed)
    ensures old(Pending(table, req, acceptNew)) == Reattach ==>
      && server.gsi == old(table.gameServerTable[req.head.desiredId])
      && server.gsi.status == old(table.gameServerTable[req.head.desiredId].status)
      && table.gameServerTable == old(table.gameServerTable)
    ensures old(Pending(table, req, acceptNew)) == NewOnDesiredId ==>
      && fresh(server.gsi) && server.gsi.id == req.head.desiredId && server.gsi.status == STATUS_DOWN
      && table.gameServerTable == old(table.gameServerTable)[req.head.desiredId := server.gsi]
    ensures old(Pending(table, req, acceptNew)) == NewOnFreeId ==>
      && fresh(server.gsi) && server.gsi.status == STATUS_DOWN
      && server.gsi.id in table.serverNames && server.gsi.id !in old(table.gameServerTable)
      && table.gameServerTable == old(table.gameServerTable)[server.gsi.id := server.gsi]
    ensures forall h :: h in old(table.gameServerTable.Values) && h != server.gsi ==> unchanged(h)
  {
    ghost var decision := Pending(table, req, acceptNew);
    var gsi := table.RegisteredGameServerById(req.head.desiredId);
    if gsi != null {
      if gsi.hexId == req.hexId {
        if gsi.isAuthed {
          assert decision == Refuse(REASON_ALREADY_LOGGED_IN);
          server.ForceClose(REASON_ALREADY_LOGGED_IN);
          return false;
        }
        assert decision == Reattach;
        server.AttachGameServerInfo(gsi, req.head.port, req.hosts, req.head.maxPlayers, subnetOk);
      } else if acceptNew && req.head.acceptAlternativeId {
        ok := RegisterOnFreeId(server, table, req, subnetOk);
        if !ok {
          assert decision == Refuse(REASON_NO_FREE_ID);
          server.ForceClose(REASON_NO_FREE_ID);
          return false;
        }
        assert decision == NewOnFreeId;
      } else {
        assert decision == Refuse(REASON_WRONG_HEXID);
        server.ForceClose(REASON_WRONG_HEXID);
        return false;
      }
    } else if acceptNew {
      assert decision == NewOnDesiredId;
      RegisterOnDesiredId(server, table, req, subnetOk);
    } else {
      assert decision == Refuse(REASON_WRONG_HEXID);
      server.ForceClose(REASON_WRONG_HEXID);
      return false;
    }
    return true;
  }

  /** A new entry for the request, bound to the first configured id without one. */
  method RegisterOnFreeId(server: GameServerThread, table: GameServerTable, req: AuthRequest,
                          subnetOk: JString -> bool) returns (ok: bool)
    requires table.Valid()
    modifies table`gameServerTable, server`gsi
    ensures ok <==> exists k :: k in table.serverNames && k !in old(table.gameServerTable)
    ensures !ok ==> table.gameServerTable == old(table.gameServerTable) && server.gsi == old(server.gsi)
    ensures ok ==>
      && AttachedAs(server, req, subnetOk) && fresh(server.gsi) && server.gsi.status == STATUS_DOWN
      && server.gsi.id in table.serverNames && server.gsi.id !in old(table.gameServerTable)
      && table.gameServerTable == old(table.gameServerTable)[server.gsi.id := server.gsi]
  {
    var gsi := new GameServerInfo(req.head.desiredId, req.hexId, server);
    ok := table.RegisterWithFirstAvailableId(gsi);
    if ok {
      server.AttachGameServerInfo(gsi, req.head.port, req.hosts, req.head.maxPlayers, subnetOk);
      table.RegisterServerOnDB(req.hexId, gsi.id);
    }
  }

  /**
   * A new entry for the request under the desired id, which has none.
   * `register` cannot fail here: nothing runs between the lookup and the
   * registration, so the `REASON_ID_RESERVED` branch is unreachable.
   */
  method RegisterOnDesiredId(server: GameServerThread, table: GameServerTable, req: AuthRequest,
                             subnetOk: JString -> bool)
    requires req.head.desiredId !in table.gameServerTable
    modifies table`gameServerTable, server`gsi
    ensures AttachedAs(server, req, subnetOk) && fresh(server.gsi) && server.gsi.status == STATUS_DOWN
    ensures server.gsi.id == req.head.desiredId
    ensures table.gameServerTable == old(table.gameServerTable)[req.head.desiredId := server.gsi]
  {
    var gsi := new GameServerInfo(req.head.desiredId, req.hexId, server);
    var registered := table.Register(req.head.desiredId, gsi);
    if !registered {
      assert false;
    }
    server.AttachGameServerInfo(gsi, req.head.port, req.hosts, req.head.maxPlayers, subnetOk);
    table.RegisterServerOnDB(req.hexId, req.head.desiredId);
  }

  /** How a `GameServerAuth` ended: unreadable, refused (the connection is closed), or accepted under an id. */
  datatype AuthOutcome = Unreadable | Refused | Accepted(id: int)

  /**
   * `GameServerAuth`: the request is read, then registered; only an
   * accepted registration moves the connection to AUTHED. The
   * `AuthResponse` sent on acceptance carries `id`, the id of the entry
   * now attached.
   */
  method GameServerAuth(data: seq<u8>, server: GameServerThread, table: GameServerTable, acceptNew: bool,
                        subnetOk: JString -> bool) returns (r: AuthOutcome)
    requires |data| >= 1 && table.Valid()
    modifies table`gameServerTable, table.gameServerTable.Values
    modifies server`gsi, server`sent, server`closed, server`loginConnectionState
    ensures r == Unreadable <==> ParseGameServerAuth(data).None?
    ensures r == Unreadable ==>
      && table.gameServerTable == old(table.gameServerTable) && server.gsi == old(server.gsi)
      && server.sent == old(server.sent) && server.closed == old(server.closed)
      && forall h :: h in old(table.gameServerTable.Values) ==> unchanged(h)
    ensures r != Unreadable ==>
      (r == Refused <==> old(Pending(table, ParseGameServerAuth(data).value, acceptNew)).Refuse?)
    ensures r == Refused ==> server.closed
    ensures r.Accepted? ==>
      && AttachedAs(server, ParseGameServerAuth(data).value, subnetOk) && r.id == server.gsi.id
      && server.loginConnectionState == Authed
    ensures !r.Accepted? ==> server.loginConnectionState == old(server.loginConnectionState)
  {
    var req := ReadGameServerAuth(data);
    if req.None? {
      return Unreadable;
    }
    r := Authenticate(server, table, req.value, acceptNew, subnetOk);
  }

  /** The registration of a request that was read, and the state change when it is accepted. */
  method Authenticate(server: GameServerThread, table: GameServerTable, req: AuthRequest, acceptNew: bool,
                      subnetOk: JString -> bool) returns (r: AuthOutcome)
    requires table.Valid()
    modifies table`gameServerTable, table.gameServerTable.Values
    modifies server`gsi, server`sent, server`closed, server`loginConnectionState
    ensures r != Unreadable
    ensures r == Refused <==> old(Pending(table, req, acceptNew)).Refuse?
    ensures r == Refused ==> server.closed
    ensures r.Accepted? ==>
      AttachedAs(server, req, subnetOk) && r.id == server.gsi.id && server.loginConnectionState == Authed
    ensures !r.Accepted? ==> server.loginConnectionState == old(server.loginConnectionState)
  {
    var ok := HandleRegProcess(server, table, req, acceptNew, subnetOk);
    if !ok {
      return Refused;
    }
    r := Accepted(server.gsi.id);
    server.SetLoginConnectionState(Authed);
  }

  // ================================================================ handlePacket

  /**
   * What the handlers take from outside the connection: the mail switch,
   * `ACCEPT_NEW_GAMESERVER`, the RSA decryption with the login server's
   * private key, whether a host string is a subnet the address list
   * accepts, and name resolution for temporary bans.
   */
  datatype GameServerEnv = GameServerEnv(
    mailEnabled: bool,
    acceptNew: bool,
    rsa: seq<u8> -> Option<seq<u8>>,
    subnetOk: JString -> bool,
    resolve: JString -> Option<IPv4>)

  /**
   * `handlePacket` followed by the packet's own work: the dispatch decides;
   * an opcode the state does not accept closes the connection with
   * NOT_AUTHED. Only `BlowFishKey` (CONNECTED to BF_CONNECTED) and
   * `GameServerAuth` (BF_CONNECTED to AUTHED) move the state.
   */
  method HandlePacket(data: seq<u8>, server: GameServerThread, table: GameServerTable, controller: LoginController,
                      env: GameServerEnv) returns (a: GameServerAction)
    requires |data| >= 1 && table.Valid() && controller.Valid()
    modifies server`blowfish, server`loginConnectionState, server`accountsOnGameServer
    modifies server`gsi, server`sent, server`closed
    modifies table`gameServerTable, table.gameServerTable.Values, controller`loginServerClients, controller`bannedIps
    ensures controller.Valid()
    ensures a == Dispatch(old(server.loginConnectionState), data[0], env.mailEnabled)
    ensures a.CloseNotAuthed? ==>
      && server.closed
      && server.sent == old(server.sent) + [Framed(server.blowfish.cipher, server.blowfish.key, FailContent(NOT_AUTHED))]
    ensures a.Construct? || server.loginConnectionState == old(server.loginConnectionState)
    ensures a.Construct? ==>
      || server.loginConnectionState == old(server.loginConnectionState)
      || (a.packet == BlowFishKeyPacket && server.loginConnectionState == BfConnected)
      || (a.packet == GameServerAuthPacket && server.loginConnectionState == Authed)
  {
    a := Dispatch(server.loginConnectionState, data[0], env.mailEnabled);
    match a
    case CloseNotAuthed =>
      server.ForceClose(NOT_AUTHED);
    case Nothing =>
    case Construct(packet, _) =>
      RunPacket(packet, data, server, table, controller, env);
  }

  /** The constructor of the packet class the dispatch chose; the classes outside this model do nothing here. */
  method RunPacket(packet: GameServerPacket, data: seq<u8>, server: GameServerThread, table: GameServerTable,
                   controller: LoginController, env: GameServerEnv)
    requires |data| >= 1 && table.Valid() && controller.Valid()
    modifies server`blowfish, server`loginConnectionState, server`accountsOnGameServer
    modifies server`gsi, server`sent, server`closed
    modifies table`gameServerTable, table.gameServerTable.Values, controller`loginServerClients, controller`bannedIps
    ensures controller.Valid()
    ensures || server.loginConnectionState == old(server.loginConnectionState)
            || (packet == BlowFishKeyPacket && server.loginConnectionState == BfConnected)
            || (packet == GameServerAuthPacket && server.loginConnectionState == Authed)
  {
    if packet == BlowFishKeyPacket {
      var _ := BlowFishKey(data, server, env.rsa);
    } else if packet == GameServerAuthPacket {
      var _ := GameServerAuth(data, server, table, env.acceptNew, env.subnetOk);
    } else if packet == PlayerLogoutPacket {
      PlayerLogout(data, server);
    } else if packet == PlayerAuthRequestPacket {
      var _, _, _ := PlayerAuthRequest(data, server, controller);
    } else if packet == ServerStatusPacket {
      var _ := ServerStatus(data, server, table);
    } else if packet == RequestTempBanPacket {
      var _ := RequestTempBan(data, controller, env.resolve);
    }
  }
}
